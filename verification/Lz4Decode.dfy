/**
 `LZ4_decompress_safe`: the safe decode loop of lz4.c for a 32-bit target, with its
 16/18-byte shortcut, its inc32/dec64 shuffle and its over-running 8-byte copies.
 Every buffer access is proved in bounds and every memcpy non-overlapping; the result
 is the reference reading of the block, and success is characterised exactly.  The buffers
 stand clear of the ends of the address space; which inputs overrun all the same is said exactly.
 */
module Lz4Decode {
  import opened Basics
  import opened Lz4Format

  const INT_MAX := 0x7FFF_FFFF
  const WILDCOPYLENGTH := 8
  const MATCH_SAFEGUARD_DISTANCE := 2 * WILDCOPYLENGTH - MINMATCH

  // ---------------------------------------------------------------- when a block is accepted

  /** Enough room on both sides for the two-stage shortcut at `pos`, with `op` bytes written. */
  predicate Shortcut(iend: nat, pos: nat, op: nat, cap: nat, lits: nat)
  {
    lits < RUN_MASK && pos + 1 < iend - 16 && op <= cap - 32
  }

  /** The literals of a sequence are accepted, by the shortcut or by the tests at the ends. */
  predicate LitsFit(iend: nat, pos: nat, op: nat, cap: nat, lits: nat, litEnd: nat)
  {
    Shortcut(iend, pos, op, cap, lits) || (op + lits <= cap - MFLIMIT && litEnd <= iend - 8)
  }

  /**
   Whether a sequence with a match keeps clear of the ends of both buffers.  The shortcut
   waives the two end-of-block distances; every other path insists on them.
   */
  predicate MatchFits(iend: nat, pos: nat, op: nat, cap: nat, m: Step)
    requires m.Match?
  {
    var o1 := op + |m.lits|;
    var short := Shortcut(iend, pos, op, cap, |m.lits|);
    && LitsFit(iend, pos, op, cap, |m.lits|, m.litEnd)
    && m.offset <= o1
    && ((short && m.mlen < RUN_MASK + MINMATCH && m.offset >= 8) ||
        ((m.mlen >= RUN_MASK + MINMATCH ==> m.next <= iend - LASTLITERALS + 1) && o1 + m.mlen <= cap - LASTLITERALS))
  }

  /** What one sequence comes to: an error, the end of the block, or a next position. */
  datatype Outcome<T> = Failed | Done(out: T) | More(next: nat, out: T)

  /** The sequence at `pos`, read one byte at a time into an output of at most `cap` bytes. */
  function NextStep(src: seq<byte>, pos: nat, out: seq<byte>, cap: nat): (r: Outcome<seq<byte>>)
    ensures r.More? ==> pos < r.next < |src|
    ensures r.More? && |out| <= cap ==> |r.out| <= cap
  {
    Take(ParseStep(src, pos), |src|, pos, out, cap)
  }

  function Take(step: Step, iend: nat, pos: nat, out: seq<byte>, cap: nat): (r: Outcome<seq<byte>>)
    ensures r.More? && |out| <= cap ==> |r.out| <= cap
  {
    match step
    case Malformed => Failed
    case Final(lits) => if |out| + |lits| <= cap then Done(out + lits) else Failed
    case Match(lits, offset, mlen, _, next) =>
      if MatchFits(iend, pos, |out|, cap, step) then More(next, Repeat(out + lits, offset, mlen)) else Failed
  }

  function SafeDecode(src: seq<byte>, pos: nat, out: seq<byte>, cap: nat): (r: Option<seq<byte>>)
    decreases |src| - pos
  {
    match NextStep(src, pos, out, cap)
    case Failed => None
    case Done(whole) => Some(whole)
    case More(next, longer) => SafeDecode(src, next, longer, cap)
  }

  /** The whole call, with its special cases for empty buffers. */
  function Decode(src: seq<byte>, cap: nat): (r: Option<seq<byte>>)
  {
    if cap == 0 then (if |src| == 1 && src[0] == 0 then Some([]) else None)
    else if src == [] then None
    else SafeDecode(src, 0, [], cap)
  }

  /** What the decoder accepts, it reads as the format says (offset 0 giving zeros). */
  lemma {:induction false} SafeDecodeSound(src: seq<byte>, pos: nat, out: seq<byte>, cap: nat)
    requires SafeDecode(src, pos, out, cap).Some? && |out| <= cap
    ensures Interpret(src, pos, out, true) == SafeDecode(src, pos, out, cap)
    ensures |SafeDecode(src, pos, out, cap).value| <= cap
    decreases |src| - pos
  {
    var o := NextStep(src, pos, out, cap);
    if o.More? { SafeDecodeSound(src, o.next, o.out, cap); }
  }

  lemma DecodeSound(src: seq<byte>, cap: nat)
    requires Decode(src, cap).Some?
    ensures Interpret(src, 0, [], true) == Decode(src, cap)
    ensures |Decode(src, cap).value| <= cap
  {
    if cap == 0 {
      assert ReadLength(src, 1, src[0] / 16) == Length(0, 1);
      assert src[1..1] == [] && ParseStep(src, 0) == Final([]);
      assert [] + src[1..1] == [];
    } else {
      SafeDecodeSound(src, 0, [], cap);
    }
  }

  /** Where the strict reading succeeds it agrees with the zero-filling one. */
  lemma {:induction false} StrictAgrees(src: seq<byte>, pos: nat, out: seq<byte>)
    ensures Interpret(src, pos, out, false).Some? ==>
              Interpret(src, pos, out, true) == Interpret(src, pos, out, false)
    decreases |src| - pos
  {
    var step := ParseStep(src, pos);
    if step.Match? && 0 < step.offset <= |out| + |step.lits| {
      StrictAgrees(src, step.next, Repeat(out + step.lits, step.offset, step.mlen));
    }
  }

  // ---------------------------------------------------------------- every valid block is accepted

  /** The restriction on the last match of a block bounds every match of it. */
  lemma RestrictedEvery(seqs: seq<Sequence>, total: nat, i: nat)
    requires Reaches(seqs) && Restricted(seqs, total) && i < |seqs|
    requires ValidSequences(seqs)
    ensures Reaches(seqs[..i])
    ensures var o1 := |Expand(seqs[..i])| + |seqs[i].lits|;
            o1 + MFLIMIT <= total && o1 + seqs[i].mlen + LASTLITERALS <= total
  {
    ExpandPrefix(seqs, i);
    ExpandPrefix(seqs, |seqs| - 1);
    if i < |seqs| - 1 {
      var front := seqs[..|seqs| - 1];
      ExpandPrefix(front, i);
      assert front[..i] == seqs[..i];
    }
  }

  /** Each match of a valid block keeps clear of the buffer ends. */
  lemma StepFits(seqs: seq<Sequence>, last: seq<byte>, i: nat, cap: nat)
    requires ValidBlock(seqs, last) && i < |seqs| && |Expand(seqs)| + |last| <= cap
    ensures Reaches(seqs[..i])
    ensures var src, pos := EncodeBlock(seqs, last), |EncodeAll(seqs[..i])|;
            ParseStep(src, pos).Match? && MatchFits(|src|, pos, |Expand(seqs[..i])|, cap, ParseStep(src, pos))
  {
    StepOf(seqs, last, i);
    OutputOf(seqs, i);
    RestrictedEvery(seqs, |Expand(seqs)| + |last|, i);
    assert |EncodeFinal(last)| >= 6;
  }

  /** And is taken. */
  lemma StepTaken(seqs: seq<Sequence>, last: seq<byte>, i: nat, cap: nat)
    requires ValidBlock(seqs, last) && i < |seqs| && |Expand(seqs)| + |last| <= cap
    ensures Reaches(seqs[..i]) && Reaches(seqs[..i + 1])
    ensures NextStep(EncodeBlock(seqs, last), |EncodeAll(seqs[..i])|, Expand(seqs[..i]), cap)
            == More(|EncodeAll(seqs[..i + 1])|, Expand(seqs[..i + 1]))
    ensures |EncodeAll(seqs[..i])| < |EncodeAll(seqs[..i + 1])| <= |EncodeBlock(seqs, last)|
  {
    StepOf(seqs, last, i);
    OutputOf(seqs, i);
    StepFits(seqs, last, i, cap);
  }

  lemma {:induction false} SafeDecodeEncoded(seqs: seq<Sequence>, last: seq<byte>, i: nat, cap: nat)
    requires ValidBlock(seqs, last) && i <= |seqs| && |Expand(seqs)| + |last| <= cap
    ensures Reaches(seqs[..i])
    ensures SafeDecode(EncodeBlock(seqs, last), |EncodeAll(seqs[..i])|, Expand(seqs[..i]), cap)
            == Some(Expand(seqs) + last)
    decreases |seqs| - i
  {
    var src := EncodeBlock(seqs, last);
    if i == |seqs| {
      assert seqs[..i] == seqs;
      assert src[|EncodeAll(seqs)|..] == EncodeFinal(last);
      ReadFinal(src, |EncodeAll(seqs)|, last);
    } else {
      StepTaken(seqs, last, i, cap);
      SafeDecodeEncoded(seqs, last, i + 1, cap);
    }
  }

  /** Nothing is written as one zero byte. */
  lemma EmptyBlock(seqs: seq<Sequence>, last: seq<byte>)
    requires seqs == [] && |last| == 0
    ensures var b := EncodeBlock(seqs, last); |b| == 1 && b[0] == 0
  {
  }

  /** A block that obeys the parsing restrictions decodes at every sufficient capacity. */
  lemma DecodeEncoded(seqs: seq<Sequence>, last: seq<byte>, cap: nat)
    requires ValidBlock(seqs, last) && |Expand(seqs)| + |last| <= cap
    ensures Decode(EncodeBlock(seqs, last), cap) == Some(Expand(seqs) + last)
  {
    if cap == 0 {
      assert seqs == [];
      EmptyBlock(seqs, last);
      assert |Expand(seqs) + last| == 0;
    } else {
      assert seqs[..0] == [];
      assert EncodeAll(seqs[..0]) == [] && Expand(seqs[..0]) == [];
      SafeDecodeEncoded(seqs, last, 0, cap);
      assert |EncodeFinal(last)| > 0;
    }
  }

  // ---------------------------------------------------------------- copies

  /** memcpy within the output buffer: the two regions may not overlap. */
  method Memcpy(dst: array<byte>, d: nat, s: nat, n: nat)
    requires d + n <= dst.Length && s + n <= dst.Length
    requires d + n <= s || s + n <= d
    modifies dst
    ensures forall k :: 0 <= k < dst.Length ==>
              dst[k] == if d <= k < d + n then old(dst[k - d + s]) else old(dst[k])
  {
    forall i | 0 <= i < n { dst[d + i] := dst[s + i]; }
  }

  /** memcpy from the input to the output buffer. */
  method MemcpyFrom(src: seq<byte>, s: nat, dst: array<byte>, d: nat, n: nat)
    requires d + n <= dst.Length && s + n <= |src|
    modifies dst
    ensures forall k :: 0 <= k < dst.Length ==>
              dst[k] == if d <= k < d + n then src[k - d + s] else old(dst[k])
  {
    forall i | 0 <= i < n { dst[d + i] := src[s + i]; }
  }

  /** LZ4_wildCopy8 within the output: copies at distance `d - s`, up to 7 bytes past `e`. */
  method WildCopy8(dst: array<byte>, d: nat, s: nat, e: nat)
    requires s + 8 <= d && d + 8 <= dst.Length && e + 7 <= dst.Length
    modifies dst
    ensures forall k :: 0 <= k < d ==> dst[k] == old(dst[k])
    ensures forall k :: d <= k < e ==> dst[k] == dst[k - (d - s)]
  {
    var dd, ss := d, s;
    Memcpy(dst, dd, ss, 8);
    dd, ss := dd + 8, ss + 8;
    while dd < e
      invariant d + 8 <= dd <= dst.Length && dd - ss == d - s
      invariant dd < e + 8 || dd == d + 8
      invariant forall k :: 0 <= k < d ==> dst[k] == old(dst[k])
      invariant forall k :: d <= k < dd ==> dst[k] == dst[k - (d - s)]
    {
      Memcpy(dst, dd, ss, 8);
      dd, ss := dd + 8, ss + 8;
    }
  }

  /** LZ4_wildCopy8 from the input to the output. */
  method WildCopy8From(src: seq<byte>, s: nat, dst: array<byte>, d: nat, e: nat)
    requires d <= e && d + 8 <= dst.Length && e + 7 <= dst.Length
    requires s + 8 <= |src| && s + (e - d) + 7 <= |src|
    modifies dst
    ensures dst[..e] == old(dst[..d]) + src[s..s + (e - d)]
    ensures forall k :: e + 8 <= k < dst.Length ==> dst[k] == old(dst[k])
  {
    var dd, ss := d, s;
    MemcpyFrom(src, ss, dst, dd, 8);
    dd, ss := dd + 8, ss + 8;
    while dd < e
      invariant d + 8 <= dd <= dst.Length && dd - d == ss - s && ss <= |src|
      invariant dd < e + 8 || dd == d + 8
      invariant forall k :: 0 <= k < d ==> dst[k] == old(dst[k])
      invariant forall k :: d <= k < dd ==> dst[k] == src[k - d + s]
      invariant forall k :: dd <= k < dst.Length ==> dst[k] == old(dst[k])
    {
      MemcpyFrom(src, ss, dst, dd, 8);
      dd, ss := dd + 8, ss + 8;
    }
  }

  const INC32: seq<nat> := [0, 1, 2, 1, 0, 4, 4, 4]
  const DEC64: seq<int> := [0, 0, 0, -1, -4, 1, 2, 3]

  /** The copy distance after the shuffle: a multiple of the offset, and at least 8. */
  function Spread(offset: nat): (d: nat)
    ensures d >= 8
    ensures offset > 0 ==> exists j: nat :: d == (j + 1) * offset && j * offset <= 8
  {
    assert offset > 0 ==> offset == (0 + 1) * offset && 0 * offset <= 8;
    match offset
    case 0 => 8
    case 1 => assert 8 == (7 + 1) * offset && 7 * offset <= 8; 8
    case 2 => assert 8 == (3 + 1) * offset && 3 * offset <= 8; 8
    case 3 => assert 9 == (2 + 1) * offset && 2 * offset <= 8; 9
    case 4 => assert 8 == (1 + 1) * offset && 1 * offset <= 8; 8
    case 5 => assert 10 == (1 + 1) * offset && 1 * offset <= 8; 10
    case 6 => assert 12 == (1 + 1) * offset && 1 * offset <= 8; 12
    case 7 => assert 14 == (1 + 1) * offset && 1 * offset <= 8; 14
    case _ => offset
  }

  /** Copying back j times by `offset` is copying back once by j * offset. */
  lemma {:induction false} CopiesBackBy(s: seq<byte>, from: nat, upto: nat, offset: nat, k: nat, j: nat)
    requires 0 < offset <= from <= upto <= |s| && CopiesBack(s, from, upto, offset)
    requires k < upto && from <= k + offset - j * offset
    ensures s[k] == s[k - j * offset]
  {
    if j > 0 {
      assert (j - 1) * offset + offset == j * offset;
      CopiesBackBy(s, from, upto, offset, k, j - 1);
    }
  }

  /** Eight bytes at the offset, then copies at the spread distance, are a copy at the offset. */
  lemma {:induction false} SpreadCopies(s: seq<byte>, from: nat, upto: nat, offset: nat)
    requires offset <= from && from + 8 <= upto <= |s| && Spread(offset) <= from + 8
    requires CopiesBack(s, from, from + 8, offset)
    requires forall k :: from + 8 <= k < upto ==> s[k] == s[k - Spread(offset)]
    ensures CopiesBack(s, from, upto, offset)
  {
    if upto > from + 8 {
      var k := upto - 1;
      SpreadCopies(s, from, k, offset);
      if offset > 0 {
        var j: nat :| Spread(offset) == (j + 1) * offset && j * offset <= 8;
        assert (j + 1) * offset == j * offset + offset;
        CopiesBackBy(s, from, k, offset, k - offset, j);
        assert s[k] == s[k - offset];
      } else {
        assert s[k] == s[k - 8] == 0;
      }
    }
  }

  /** Four bytes one at a time, over a zeroed word so that a match at the output itself reads zeros. */
  method CopyFour(dst: array<byte>, op: nat, m: nat)
    requires m <= op && op + 4 <= dst.Length
    modifies dst
    ensures forall k :: 0 <= k < dst.Length && !(op <= k < op + 4) ==> dst[k] == old(dst[k])
    ensures CopiesBack(dst[..], op, op + 4, op - m)
  {
    dst[op], dst[op + 1], dst[op + 2], dst[op + 3] := 0, 0, 0, 0;
    dst[op] := dst[m];
    dst[op + 1] := dst[m + 1];
    dst[op + 2] := dst[m + 2];
    dst[op + 3] := dst[m + 3];
  }

  /** The second half of the shuffle continues the copy of the first half. */
  lemma Shuffled(four: seq<byte>, eight: seq<byte>, op: nat, offset: nat)
    requires offset <= op && offset < 8 && op + 8 <= |four| == |eight|
    requires CopiesBack(four, op, op + 4, offset)
    requires forall k :: 0 <= k < op + 4 ==> eight[k] == four[k]
    requires forall k :: op + 4 <= k < op + 8 ==> eight[k] == four[k - 4 - offset + INC32[offset]]
    ensures CopiesBack(eight, op, op + 8, offset)
  {
    forall k | op <= k < op + 8
      ensures eight[k] == if offset == 0 then 0 else eight[k - offset]
    {
      if k >= op + 4 {
        if offset == 1 { CopiesBackBy(four, op, op + 4, 1, op + 3, 3); }
      }
    }
  }

  /** The first eight bytes of a match, and where to go on copying from. */
  method SpreadMatch(dst: array<byte>, op: nat, offset: nat) returns (m: nat)
    requires offset <= op && op + 8 <= dst.Length
    modifies dst
    ensures forall k :: 0 <= k < op ==> dst[k] == old(dst[k])
    ensures CopiesBack(dst[..], op, op + 8, offset)
    ensures m == op + 8 - Spread(offset)
  {
    m := op - offset;
    if offset < 8 {
      CopyFour(dst, op, m);
      ghost var four := dst[..];
      m := m + INC32[offset];
      Memcpy(dst, op + 4, m, 4);
      ghost var eight := dst[..];
      Shuffled(four, eight, op, offset);
      m := m - DEC64[offset];
    } else {
      Memcpy(dst, op, m, 8);
      m := m + 8;
    }
  }

  /**
   The match copy of the decode loop.  It refuses exactly the matches that end in the
   last five bytes of the buffer, and otherwise is the overlapping byte copy.
   */
  method CopyMatch(dst: array<byte>, op: nat, offset: nat, length: nat) returns (ok: bool)
    requires offset <= op && op + MFLIMIT <= dst.Length && MINMATCH <= length
    modifies dst
    ensures ok <==> op + length <= dst.Length - LASTLITERALS
    ensures ok ==> dst[..op + length] == Repeat(old(dst[..op]), offset, length)
  {
    var cpy := op + length;
    var m := SpreadMatch(dst, op, offset);
    ok := CopyTail(dst, op + 8, m, cpy);
    if ok {
      SpreadIsRepeat(dst[..], op, cpy, offset);
      assert dst[..op] == old(dst[..op]);
    }
  }

  /** The match after its first eight bytes, refused when it ends in the last five of the buffer. */
  method CopyTail(dst: array<byte>, o: nat, m: nat, cpy: nat) returns (ok: bool)
    requires m + 8 <= o <= cpy + 4 && o + 4 <= dst.Length
    modifies dst
    ensures ok <==> cpy <= dst.Length - LASTLITERALS
    ensures forall k :: 0 <= k < o ==> dst[k] == old(dst[k])
    ensures ok ==> forall k :: o <= k < cpy ==> dst[k] == dst[k - (o - m)]
  {
    var oend := dst.Length;
    ok := true;
    if cpy > oend - MATCH_SAFEGUARD_DISTANCE {
      if cpy > oend - LASTLITERALS { return false; }
      CopyNearEnd(dst, o, m, cpy);
    } else {
      CopyRest(dst, o, m, cpy);
    }
  }

  lemma SpreadIsRepeat(s: seq<byte>, op: nat, cpy: nat, offset: nat)
    requires offset <= op <= cpy <= |s| && op + 8 <= |s| && CopiesBack(s, op, op + 8, offset)
    requires forall k :: op + 8 <= k < cpy ==> s[k] == s[k - Spread(offset)]
    requires Spread(offset) <= op + 8
    ensures s[..cpy] == Repeat(s[..op], offset, cpy - op)
  {
    SpreadCopies(s, op, if cpy < op + 8 then op + 8 else cpy, offset);
    RepeatUnique(s, op, cpy, offset);
  }

  /** The tail of a match near the end of the buffer: wild copies, then single bytes. */
  method CopyNearEnd(dst: array<byte>, o0: nat, m0: nat, cpy: nat)
    requires m0 + 8 <= o0 <= dst.Length && cpy <= dst.Length - LASTLITERALS
    modifies dst
    ensures forall k :: 0 <= k < o0 ==> dst[k] == old(dst[k])
    ensures forall k :: o0 <= k < cpy ==> dst[k] == dst[k - (o0 - m0)]
  {
    var o, m := o0, m0;
    var oCopyLimit := dst.Length - (WILDCOPYLENGTH - 1);
    if o < oCopyLimit {
      WildCopy8(dst, o, m, oCopyLimit);
      m := m + (oCopyLimit - o);
      o := oCopyLimit;
    }
    while o < cpy
      invariant o0 <= o <= dst.Length && o - m == o0 - m0
      invariant forall k :: 0 <= k < o0 ==> dst[k] == old(dst[k])
      invariant forall k :: o0 <= k < o && k < cpy ==> dst[k] == dst[k - (o0 - m0)]
    {
      dst[o] := dst[m];
      o, m := o + 1, m + 1;
    }
  }

  /** The tail of a match away from the end: eight bytes, and wild copies for a long one. */
  method CopyRest(dst: array<byte>, o: nat, m: nat, cpy: nat)
    requires m + 8 <= o && o + 8 <= dst.Length && cpy + MATCH_SAFEGUARD_DISTANCE <= dst.Length
    modifies dst
    ensures forall k :: 0 <= k < o ==> dst[k] == old(dst[k])
    ensures forall k :: o <= k < cpy ==> dst[k] == dst[k - (o - m)]
  {
    Memcpy(dst, o, m, 8);
    if cpy > o + 8 { WildCopy8(dst, o + 8, m + 8, cpy); }
  }

  // ---------------------------------------------------------------- the decode loop

  /**
   read_variable_length: stops with an error when the run passes `ilimit` or when the
   32-bit accumulator passes its half range.
   */
  method ReadVariableLength(src: seq<byte>, ip0: nat, ilimit: int, initialCheck: bool)
      returns (ok: bool, length: nat, ip: nat)
    requires ip0 < |src| || initialCheck
    requires ilimit < |src|
    ensures var run := ReadRun(src, ip0);
            ok ==> run == Length(length, ip) && ip <= ilimit && length <= INT_MAX && length <= 255 * |src|
    ensures var run := ReadRun(src, ip0);
            !ok ==> run.NoLength? || run.next > ilimit || run.value > INT_MAX || (initialCheck && ip0 >= ilimit)
  {
    ip, length := ip0, 0;
    if initialCheck && ip >= ilimit { return false, 0, ip; }
    var s := src[ip];
    ip := ip + 1;
    length := length + s;
    if ip > ilimit { return false, 0, ip; }  // one byte cannot overflow the accumulator yet
    while s == 255
      invariant ip0 < ip <= ilimit && length <= INT_MAX && length <= 255 * (ip - ip0)
      invariant s == 255 ==> ReadRun(src, ip0) == Plus(length, ReadRun(src, ip))
      invariant s != 255 ==> ReadRun(src, ip0) == Length(length, ip)
      decreases s == 255, |src| - ip
    {
      ghost var rest := ReadRun(src, ip);
      s := src[ip];
      ip := ip + 1;
      length := length + s;
      if ip > ilimit { return false, 0, ip; }
      if length > INT_MAX { return false, 0, ip; }
    }
    ok := true;
  }

  ghost function Plus(n: nat, rest: Length): Length
  {
    if rest.NoLength? then NoLength else Length(n + rest.value, rest.next)
  }

  /** An outcome whose output is the first bytes of the buffer. */
  ghost function View(o: Outcome<nat>, buffer: seq<byte>): Outcome<seq<byte>>
    requires !o.Failed? ==> o.out <= |buffer|
  {
    match o
    case Failed => Failed
    case Done(n) => Done(buffer[..n])
    case More(next, n) => More(next, buffer[..n])
  }

  function Offset(src: seq<byte>, p: nat): (r: nat)
    requires p + 2 <= |src|
  {
    src[p] as int + 256 * src[p + 1] as int
  }

  /** What becomes of a match. */
  datatype Taken = Refused | Taken(next: nat, offset: nat, length: nat)

  /** The output after it. */
  ghost function Onto(m: Taken, out: seq<byte>): (r: Outcome<seq<byte>>)
    requires m.Taken? ==> m.offset <= |out|
  {
    if m.Refused? then Failed else More(m.next, Repeat(out, m.offset, m.length))
  }

  /** A match whose offset is at `p`, with `op` bytes written, off the shortcut. */
  function SlowMatch(src: seq<byte>, p: nat, code: nat, op: nat, cap: nat): (r: Taken)
    requires p + 2 <= |src| && code <= RUN_MASK
    ensures r.Taken? ==> r.offset <= op
  {
    var m, offset := ReadLength(src, p + 2, code), Offset(src, p);
    if m.NoLength? || offset > op || (code == RUN_MASK && m.next > |src| - LASTLITERALS + 1)
       || op + m.value + MINMATCH > cap - LASTLITERALS then Refused
    else Taken(m.next, offset, m.value + MINMATCH)
  }

  /** The place and the literals of the sequence at `pos`, when it has a match. */
  ghost predicate LitsAt(src: seq<byte>, pos: nat, lits: seq<byte>, p: nat)
  {
    pos < |src| && p + 2 <= |src| && ParseStep(src, pos) == ParseMatch(src, src[pos] % 16, lits, p)
  }

  lemma LitsAtFrom(src: seq<byte>, pos: nat, length: nat, ip: nat)
    requires pos < |src| && ReadLength(src, pos + 1, src[pos] / 16) == Length(length, ip)
    requires ip + length + 2 <= |src|
    ensures LitsAt(src, pos, src[ip..ip + length], ip + length)
  {
  }

  lemma FinalNext(src: seq<byte>, pos: nat, length: nat, ip: nat, out: seq<byte>, cap: nat)
    requires pos < |src| && ReadLength(src, pos + 1, src[pos] / 16) == Length(length, ip)
    requires ip + length == |src| && |out| + length <= cap
    ensures NextStep(src, pos, out, cap) == Done(out + src[ip..ip + length])
  {
    assert ParseStep(src, pos) == Final(src[ip..ip + length]);
  }

  lemma StepAt(src: seq<byte>, pos: nat, lits: seq<byte>, p: nat)
    requires LitsAt(src, pos, lits, p)
    ensures var m := ReadLength(src, p + 2, src[pos] % 16);
            ParseStep(src, pos) == if m.NoLength? then Malformed
                                   else Match(lits, Offset(src, p), m.value + MINMATCH, p, m.next)
  {
  }

  /** The match is one that the shortcut copies. */
  predicate IsPlain(src: seq<byte>, p: nat, code: nat, op: nat)
    requires p + 2 <= |src|
  {
    code < RUN_MASK && 8 <= Offset(src, p) <= op
  }

  /** A match with `op` bytes written, which the shortcut may copy if it has been entered. */
  function AfterLits(src: seq<byte>, p: nat, code: nat, op: nat, cap: nat, short: bool): (r: Taken)
    requires p + 2 <= |src| && code <= RUN_MASK
    ensures r.Taken? ==> r.offset <= op
  {
    if short && IsPlain(src, p, code, op) then Taken(p + 2, Offset(src, p), code + MINMATCH)
    else SlowMatch(src, p, code, op, cap)
  }

  /** What a sequence comes to, once its literals have been accepted. */
  lemma NextAfterLits(src: seq<byte>, pos: nat, out: seq<byte>, lits: seq<byte>, p: nat, cap: nat)
    requires LitsAt(src, pos, lits, p) && LitsFit(|src|, pos, |out|, cap, |lits|, p)
    ensures NextStep(src, pos, out, cap)
            == Onto(AfterLits(src, p, src[pos] % 16, |out| + |lits|, cap, Shortcut(|src|, pos, |out|, cap, |lits|)), out + lits)
  {
    StepAt(src, pos, lits, p);
    TakeIs(src, pos, out, lits, p, cap, src[pos] % 16, ReadLength(src, p + 2, src[pos] % 16), ParseStep(src, pos));
  }

  lemma {:induction false} TakeIs(src: seq<byte>, pos: nat, out: seq<byte>, lits: seq<byte>, p: nat, cap: nat, code: nat, m: Length, step: Step)
    requires p + 2 <= |src| && code <= RUN_MASK && m == ReadLength(src, p + 2, code)
    requires step == if m.NoLength? then Malformed else Match(lits, Offset(src, p), m.value + MINMATCH, p, m.next)
    requires LitsFit(|src|, pos, |out|, cap, |lits|, p)
    ensures Take(step, |src|, pos, out, cap)
            == Onto(AfterLits(src, p, code, |out| + |lits|, cap, Shortcut(|src|, pos, |out|, cap, |lits|)), out + lits)
  {
    if m.Length? {
      var fits := MatchFits(|src|, pos, |out|, cap, step);
      FitsIs(|src|, pos, |out|, cap, step);
      AfterFits(src, p, code, |out| + |lits|, cap, Shortcut(|src|, pos, |out|, cap, |lits|), m, fits);
      assert Take(step, |src|, pos, out, cap) == if fits then More(m.next, Repeat(out + lits, step.offset, step.mlen)) else Failed;
    }
  }

  /** Whether a match is taken, and as what, told by whether it fits. */
  lemma AfterFits(src: seq<byte>, p: nat, code: nat, op: nat, cap: nat, short: bool, m: Length, fits: bool)
    requires p + 2 <= |src| && code <= RUN_MASK && m == ReadLength(src, p + 2, code) && m.Length?
    requires fits <==>
               && Offset(src, p) <= op
               && ((short && m.value < RUN_MASK && Offset(src, p) >= 8) ||
                   ((m.value >= RUN_MASK ==> m.next <= |src| - LASTLITERALS + 1) && op + m.value + MINMATCH <= cap - LASTLITERALS))
    ensures AfterLits(src, p, code, op, cap, short) == if fits then Taken(m.next, Offset(src, p), m.value + MINMATCH) else Refused
  {
  }

  /** Whether a match fits, once its literals have been accepted. */
  lemma FitsIs(iend: nat, pos: nat, op: nat, cap: nat, m: Step)
    requires m.Match?
    requires LitsFit(iend, pos, op, cap, |m.lits|, m.litEnd)
    ensures MatchFits(iend, pos, op, cap, m) <==>
              && m.offset <= op + |m.lits|
              && ((Shortcut(iend, pos, op, cap, |m.lits|) && m.mlen < RUN_MASK + MINMATCH && m.offset >= 8) ||
                  ((m.mlen >= RUN_MASK + MINMATCH ==> m.next <= iend - LASTLITERALS + 1) && op + |m.lits| + m.mlen <= cap - LASTLITERALS))
  {
  }

  // ---------------------------------------------------------------- addresses

  /** Where the two buffers are. */
  datatype Place = Place(source: nat, dest: nat)

  /**
   Buffers of `n` and `cap` bytes a little away from the ends of the address space: a distance
   before the output and fifteen bytes after both.  Every sum and difference of the decoder
   is then exact, but for the lengths that it reads from the block.
   */
  predicate Clear(at: Place, n: nat, cap: nat)
  {
    && 16 <= at.source && at.source + n + RUN_MASK < WORD
    && DISTANCE_MAX <= at.dest && at.dest + cap + RUN_MASK < WORD
  }

  /** `a + n < a` in 32 bits: the overflow tests. */
  predicate Wraps(a: nat, n: nat)
  {
    (a + n) % WORD < a
  }

  /** `match < lowPrefix` in 32 bits: the offset test. */
  predicate BeforeStart(dest: nat, op: nat, offset: nat)
  {
    (dest + op - offset) % WORD < dest
  }

  lemma NoWrap(a: nat, n: nat)
    requires a < WORD && n < WORD
    ensures Wraps(a, n) <==> a + n >= WORD
  {
    if a + n >= WORD { assert (a + n) % WORD == a + n - WORD; }
  }

  /** The offset test is right just when the match does not start below address zero. */
  lemma StartTest(dest: nat, op: nat, offset: nat)
    requires 0 < dest && dest + op < WORD && offset <= DISTANCE_MAX
    ensures (BeforeStart(dest, op, offset) <==> op < offset) <==> offset <= dest + op
  {
    if offset > dest + op { assert (dest + op - offset) % WORD == dest + op - offset + WORD; }
  }

  /** The tests that let a match of `length` plus four bytes pass, as the source makes them. */
  predicate LetsMatchPass(dest: nat, op: nat, cap: nat, length: nat)
  {
    !Wraps(dest + op, length) && (dest + op + length + MINMATCH) % WORD <= dest + cap - LASTLITERALS
  }

  /**
   They are right but for lengths that end in the last four addresses: the overflow test comes
   before the four bytes are added, and the sum then passes for one below the buffer's end.
   */
  lemma MatchTest(dest: nat, op: nat, cap: nat, length: nat)
    requires dest + cap <= WORD && op <= cap && length < WORD - MINMATCH && MINMATCH + LASTLITERALS <= dest
    ensures (LetsMatchPass(dest, op, cap, length) <==> op + length + MINMATCH <= cap - LASTLITERALS)
            <==> !(WORD - MINMATCH <= dest + op + length < WORD)
  {
    if dest + op < WORD { NoWrap(dest + op, length); }
    if dest + op + length + MINMATCH >= WORD {
      assert (dest + op + length + MINMATCH) % WORD == dest + op + length + MINMATCH - WORD;
    }
  }

  // ---------------------------------------------------------------- matches that the tests let pass

  /** A match whose offset is at `p` would end in the last four addresses, if nothing else is wrong with it. */
  predicate EndsAtTop(dest: nat, src: seq<byte>, p: nat, code: nat, op: nat)
    requires p + 2 <= |src| && code <= RUN_MASK
  {
    var m := ReadLength(src, p + 2, code);
    && code == RUN_MASK && m.Length? && m.next <= |src| - LASTLITERALS + 1 && m.value - RUN_MASK <= INT_MAX
    && Offset(src, p) <= op && WORD - MINMATCH <= dest + op + m.value < WORD
  }

  /** The sequence at `pos`, with `op` bytes written, takes the decoder past the end of its buffer. */
  predicate Overruns(dest: nat, src: seq<byte>, pos: nat, op: nat, cap: nat)
  {
    var step := ParseStep(src, pos);
    && step.Match? && LitsFit(|src|, pos, op, cap, |step.lits|, step.litEnd)
    && EndsAtTop(dest, src, step.litEnd, src[pos] % 16, op + |step.lits|)
  }

  /** No sequence that the decoder comes to does. */
  ghost predicate NoOverrun(dest: nat, src: seq<byte>, pos: nat, out: seq<byte>, cap: nat)
    decreases |src| - pos
  {
    && !Overruns(dest, src, pos, |out|, cap)
    && var o := NextStep(src, pos, out, cap); (o.More? ==> NoOverrun(dest, src, o.next, o.out, cap))
  }

  /** Such are just the matches that pass every test of the source, and still end too late. */
  lemma OverrunsIff(dest: nat, src: seq<byte>, pos: nat, op: nat, cap: nat)
    requires Clear(Place(16, dest), 0, cap) && op <= cap
    ensures var step := ParseStep(src, pos);
            Overruns(dest, src, pos, op, cap) <==>
              && step.Match? && LitsFit(|src|, pos, op, cap, |step.lits|, step.litEnd)
              && RUN_MASK + MINMATCH <= step.mlen <= RUN_MASK + MINMATCH + INT_MAX
              && step.next <= |src| - LASTLITERALS + 1 && step.offset <= op + |step.lits|
              && LetsMatchPass(dest, op + |step.lits|, cap, step.mlen - MINMATCH)
              && op + |step.lits| + step.mlen > cap - LASTLITERALS
  {
    var step := ParseStep(src, pos);
    if step.Match? {
      MatchAt(src, pos);
      var o1, length := op + |step.lits|, step.mlen - MINMATCH;
      if o1 <= cap && length < WORD - MINMATCH { MatchTest(dest, o1, cap, length); }
    }
  }

  lemma MatchAt(src: seq<byte>, pos: nat)
    requires ParseStep(src, pos).Match?
    ensures pos < |src|
    ensures var step := ParseStep(src, pos);
            && step.litEnd + 2 <= |src| && step.offset == Offset(src, step.litEnd)
            && ReadLength(src, step.litEnd + 2, src[pos] % 16) == Length(step.mlen - MINMATCH, step.next)
  {
  }

  lemma {:induction false} RunBound(src: seq<byte>, pos: nat)
    requires ReadRun(src, pos).Length?
    ensures ReadRun(src, pos).value <= 255 * (ReadRun(src, pos).next - pos)
    decreases |src| - pos
  {
    if src[pos] == 255 { RunBound(src, pos + 1); }
  }

  /** No input of `n` bytes overruns a buffer so far below the top of the address space. */
  lemma {:induction false} FarBelow(dest: nat, src: seq<byte>, pos: nat, out: seq<byte>, cap: nat)
    requires Clear(Place(16, dest), 0, cap) && |out| <= cap
    requires dest + cap + (if 255 * |src| < INT_MAX then 255 * |src| else INT_MAX) + RUN_MASK <= WORD
    ensures NoOverrun(dest, src, pos, out, cap)
    decreases |src| - pos
  {
    OverrunsIff(dest, src, pos, |out|, cap);
    var step := ParseStep(src, pos);
    if Overruns(dest, src, pos, |out|, cap) {
      MatchAt(src, pos);
      RunBound(src, step.litEnd + 2);
    }
    var o := NextStep(src, pos, out, cap);
    if o.More? { FarBelow(dest, src, o.next, o.out, cap); }
  }

  /** A match that is taken stays inside. */
  lemma StepInside(dest: nat, src: seq<byte>, pos: nat, op: nat, cap: nat)
    requires dest + cap <= WORD && ParseStep(src, pos).Match? && MatchFits(|src|, pos, op, cap, ParseStep(src, pos))
    ensures !Overruns(dest, src, pos, op, cap)
  {
    MatchAt(src, pos);
  }

  /** A block that should be accepted never does. */
  lemma {:induction false} AcceptedInside(dest: nat, src: seq<byte>, pos: nat, out: seq<byte>, cap: nat)
    requires dest + cap <= WORD && SafeDecode(src, pos, out, cap).Some?
    ensures NoOverrun(dest, src, pos, out, cap)
    decreases |src| - pos
  {
    if ParseStep(src, pos).Match? { StepInside(dest, src, pos, |out|, cap); }
    var o := NextStep(src, pos, out, cap);
    if o.More? { AcceptedInside(dest, src, o.next, o.out, cap); }
  }

  lemma DecodeInside(dest: nat, src: seq<byte>, cap: nat)
    requires dest + cap <= WORD && Decode(src, cap).Some?
    ensures NoOverrun(dest, src, 0, [], cap)
  {
    if cap > 0 { AcceptedInside(dest, src, 0, [], cap); }
  }

  /** The match that overruns a buffer in the upper half: one literal, and a length up to the last four addresses. */
  function TooLong(dest: nat): (s: Sequence)
    requires dest + 20 <= WORD
    ensures s == Sequence([0], 1, WORD - 1 - dest) && ValidSequence(s)
  {
    Sequence([0], 1, WORD - 1 - dest)
  }

  /** In the upper half of the address space there is an input that overruns, for every buffer. */
  lemma UpperHalfOverruns(dest: nat, cap: nat)
    requires 0x8000_0000 <= dest && MFLIMIT < cap && dest + cap + RUN_MASK < WORD
    ensures var src := EncodeBlock([TooLong(dest)], [0, 0, 0, 0, 0]);
            Overruns(dest, src, 0, 0, cap) && |src| <= 0x80_8100 && SafeDecode(src, 0, [], cap) == None
  {
    var s, last: seq<byte> := TooLong(dest), [0, 0, 0, 0, 0];
    ReadTooLong(s, last);
    OverrunsIff(dest, EncodeBlock([s], last), 0, 0, cap);
  }

  lemma ReadTooLong(s: Sequence, last: seq<byte>)
    requires ValidSequence(s) && |s.lits| == 1 && |last| == 5
    ensures ValidSequences([s])
    ensures var src := EncodeBlock([s], last);
            && ParseStep(src, 0) == Match(s.lits, s.offset, s.mlen, 2, |src| - 6)
            && |src| == 10 + (s.mlen + 236) / 255
  {
    assert [s][..0] == [] && [s][..1] == [s];
    StepOf([s], last, 0);
    assert EncodeAll([s][..0]) == [];
    assert EncodeAll([s]) == EncodeSequence(s);
    SizeTooLong(s);
  }

  lemma SizeTooLong(s: Sequence)
    requires ValidSequence(s) && |s.lits| == 1
    ensures |EncodeLits(s.lits, Field(s.mlen - MINMATCH))| == 2 && |EncodeSequence(s)| == 4 + (s.mlen + 236) / 255
  {
    ExtraSize(s.mlen - MINMATCH);
  }

  // ---------------------------------------------------------------- the loop

  method OutsideBuffer(at: Place, op: nat, offset: nat) returns (outside: bool)
    requires DISTANCE_MAX <= at.dest && at.dest + op < WORD && offset <= DISTANCE_MAX
    ensures outside <==> op < offset
  {
    StartTest(at.dest, op, offset);
    outside := BeforeStart(at.dest, op, offset);
  }

  /** From the offset at `p` on, with the literals already copied: _copy_match. */
  method MatchPart(src: seq<byte>, dst: array<byte>, p: nat, op: nat, code: nat, at: Place) returns (o: Outcome<nat>)
    requires p + 2 < |src| <= INT_MAX && op + MFLIMIT <= dst.Length <= INT_MAX && code <= RUN_MASK
    requires Clear(at, |src|, dst.Length) && !EndsAtTop(at.dest, src, p, code, op)
    modifies dst
    ensures !o.Failed? ==> o.out <= dst.Length
    ensures View(o, dst[..]) == Onto(SlowMatch(src, p, code, op, dst.Length), old(dst[..op]))
  {
    var m := MatchHead(src, p, op, code, at, dst.Length);
    if m.Refused? { return Failed; }
    var copied := CopyMatch(dst, op, m.offset, m.length);
    if !copied { return Failed; }
    o := Advanced(dst, m.next, op + m.length);
  }

  /** The offset and the length of a match, before the test of the last five bytes. */
  method MatchHead(src: seq<byte>, p: nat, op: nat, code: nat, at: Place, cap: nat) returns (m: Taken)
    requires p + 2 < |src| <= INT_MAX && op + MFLIMIT <= cap <= INT_MAX && code <= RUN_MASK
    requires Clear(at, |src|, cap) && !EndsAtTop(at.dest, src, p, code, op)
    ensures m.Taken? ==> m.offset <= op && MINMATCH <= m.length && at.dest + op + m.length < WORD  // the end does not wrap
    ensures SlowMatch(src, p, code, op, cap) == if m.Taken? && op + m.length <= cap - LASTLITERALS then m else Refused
  {
    var offset := Offset(src, p);
    var ok, length, ip := CodeLength(src, p + 2, code, at, op, cap);
    if !ok { return Refused; }
    var outside := OutsideBuffer(at, op, offset);
    if outside { return Refused; }
    EndsInside(at.dest, src, p, code, op, cap);
    m := Taken(ip, offset, length + MINMATCH);
  }

  lemma EndsInside(dest: nat, src: seq<byte>, p: nat, code: nat, op: nat, cap: nat)
    requires p + 2 <= |src| && code <= RUN_MASK && !EndsAtTop(dest, src, p, code, op) && Offset(src, p) <= op
    requires dest + cap + RUN_MASK < WORD && op + MFLIMIT <= cap
    requires var m := ReadLength(src, p + 2, code);
             && m.Length? && (code == RUN_MASK ==> m.next <= |src| - LASTLITERALS + 1 && m.value - RUN_MASK <= INT_MAX)
             && (code == RUN_MASK ==> dest + op + m.value < WORD)
    ensures dest + op + ReadLength(src, p + 2, code).value + MINMATCH < WORD
  {
    var m := ReadLength(src, p + 2, code);
  }

  /** The match length of a sequence, less four. */
  method CodeLength(src: seq<byte>, p: nat, code: nat, at: Place, op: nat, cap: nat) returns (ok: bool, length: nat, ip: nat)
    requires p < |src| <= INT_MAX && code <= RUN_MASK && op <= cap && Clear(at, |src|, cap)
    ensures ok ==> ReadLength(src, p, code) == Length(length, ip)
    ensures ok && code == RUN_MASK ==> ip <= |src| - LASTLITERALS + 1 && length - RUN_MASK <= INT_MAX && at.dest + op + length < WORD
    ensures !ok ==> code == RUN_MASK && var m := ReadLength(src, p, code);
                      m.NoLength? || m.next > |src| - LASTLITERALS + 1 || m.value > INT_MAX || at.dest + op + m.value >= WORD
  {
    ok, length, ip := true, code, p;
    if length == RUN_MASK {
      var addl;
      ok, addl, ip := ReadVariableLength(src, ip, |src| - LASTLITERALS + 1, false);
      if !ok { return; }
      length := length + addl;
      NoWrap(at.dest + op, length);
      ok := !Wraps(at.dest + op, length);
    }
  }

  /** The literal length of the sequence at `pos`, off the shortcut. */
  method LiteralLength(src: seq<byte>, pos: nat, at: Place, op: nat, cap: nat) returns (ok: bool, length: nat, ip: nat)
    requires pos < |src| <= INT_MAX && op <= cap && Clear(at, |src|, cap)
    ensures ok ==> ReadLength(src, pos + 1, src[pos] / 16) == Length(length, ip)
    ensures ok ==> at.dest + op + length < WORD && at.source + ip + length < WORD
    ensures !ok ==> forall out: seq<byte> | |out| == op :: NextStep(src, pos, out, cap) == Failed
  {
    ok, length, ip := true, src[pos] / 16, pos + 1;
    if length == RUN_MASK {
      var addl;
      ok, addl, ip := ReadVariableLength(src, ip, |src| - RUN_MASK, true);
      if !ok {
        assert ParseStep(src, pos).Malformed?;
        return;
      }
      length := length + addl;
      NoWrap(at.dest + op, length);
      NoWrap(at.source + ip, length);
      ok := !Wraps(at.dest + op, length) && !Wraps(at.source + ip, length);
      if !ok { FailsAtEnd(src, pos, ip, length, op, cap); }
    }
  }

  /** Whether a sequence overruns, once its literals have been accepted. */
  lemma OverrunAfterLits(dest: nat, src: seq<byte>, pos: nat, op: nat, lits: seq<byte>, p: nat, cap: nat)
    requires LitsAt(src, pos, lits, p) && LitsFit(|src|, pos, op, cap, |lits|, p)
    requires !Overruns(dest, src, pos, op, cap)
    ensures !EndsAtTop(dest, src, p, src[pos] % 16, op + |lits|)
  {
    StepAt(src, pos, lits, p);
  }

  /** One iteration of the safe decode loop. */
  method DecodeStep(src: seq<byte>, dst: array<byte>, pos: nat, op: nat, at: Place) returns (o: Outcome<nat>)
    requires pos < |src| <= INT_MAX && op <= dst.Length <= INT_MAX
    requires Clear(at, |src|, dst.Length) && !Overruns(at.dest, src, pos, op, dst.Length)
    modifies dst
    ensures !o.Failed? ==> o.out <= dst.Length
    ensures View(o, dst[..]) == NextStep(src, pos, old(dst[..op]), dst.Length)
  {
    if src[pos] / 16 != RUN_MASK && pos + 1 < |src| - 16 && op <= dst.Length - 32 {
      o := ShortcutStep(src, dst, pos, op, at);
    } else {
      o := PlainStep(src, dst, pos, op, at);
    }
  }

  method PlainStep(src: seq<byte>, dst: array<byte>, pos: nat, op: nat, at: Place) returns (o: Outcome<nat>)
    requires pos < |src| <= INT_MAX && op <= dst.Length <= INT_MAX
    requires !(src[pos] / 16 != RUN_MASK && pos + 1 < |src| - 16 && op <= dst.Length - 32)
    requires Clear(at, |src|, dst.Length) && !Overruns(at.dest, src, pos, op, dst.Length)
    modifies dst
    ensures !o.Failed? ==> o.out <= dst.Length
    ensures View(o, dst[..]) == NextStep(src, pos, old(dst[..op]), dst.Length)
  {
    var ok, length, ip := LiteralLength(src, pos, at, op, dst.Length);
    if !ok {
      assert NextStep(src, pos, old(dst[..op]), dst.Length) == Failed;
      return Failed;
    }
    if op + length > dst.Length - MFLIMIT || ip + length > |src| - (2 + 1 + LASTLITERALS) {
      o := LastStep(src, dst, pos, op, length, ip);
    } else {
      LongNext(at.dest, src, pos, old(dst[..op]), length, ip, dst.Length);
      o := LongStep(src, dst, op, length, ip, src[pos] % 16, at);
    }
  }

  /** Literals that reach into the end of a buffer: the last ones of the block, or an error. */
  method LastStep(src: seq<byte>, dst: array<byte>, pos: nat, op: nat, length: nat, ip: nat) returns (o: Outcome<nat>)
    requires pos < |src| && op <= dst.Length && ReadLength(src, pos + 1, src[pos] / 16) == Length(length, ip)
    requires !(length < RUN_MASK && pos + 1 < |src| - 16 && op <= dst.Length - 32)
    requires op + length > dst.Length - MFLIMIT || ip + length > |src| - 8
    modifies dst
    ensures !o.Failed? ==> o.out <= dst.Length
    ensures View(o, dst[..]) == NextStep(src, pos, old(dst[..op]), dst.Length)
  {
    ghost var out := dst[..op];
    if ip + length != |src| || op + length > dst.Length {
      FailsAtEnd(src, pos, ip, length, op, dst.Length);
      assert NextStep(src, pos, out, dst.Length) == Failed;
      return Failed;
    }
    MemcpyFrom(src, ip, dst, op, length);
    assert dst[..][..op + length] == out + src[ip..ip + length];
    FinalNext(src, pos, length, ip, out, dst.Length);
    o := Done(op + length);
  }

  /** A sequence off the shortcut whose literals are clear of the ends. */
  lemma LongNext(dest: nat, src: seq<byte>, pos: nat, out: seq<byte>, length: nat, ip: nat, cap: nat)
    requires pos < |src| && ReadLength(src, pos + 1, src[pos] / 16) == Length(length, ip)
    requires !(length < RUN_MASK && pos + 1 < |src| - 16 && |out| <= cap - 32)
    requires |out| + length <= cap - MFLIMIT && ip + length <= |src| - 8
    requires !Overruns(dest, src, pos, |out|, cap)
    ensures var p, code := ip + length, src[pos] % 16;
            && NextStep(src, pos, out, cap) == Onto(SlowMatch(src, p, code, |out| + length, cap), out + src[ip..p])
            && !EndsAtTop(dest, src, p, code, |out| + length)
  {
    var lits := src[ip..ip + length];
    LitsAtFrom(src, pos, length, ip);
    NextAfterLits(src, pos, out, lits, ip + length, cap);
    OverrunAfterLits(dest, src, pos, |out|, lits, ip + length, cap);
  }

  /** Literals with a match after them. */
  method LongStep(src: seq<byte>, dst: array<byte>, op: nat, length: nat, ip: nat, code: nat, at: Place) returns (o: Outcome<nat>)
    requires |src| <= INT_MAX && dst.Length <= INT_MAX && code <= RUN_MASK
    requires op + length <= dst.Length - MFLIMIT && ip + length <= |src| - 8
    requires Clear(at, |src|, dst.Length) && !EndsAtTop(at.dest, src, ip + length, code, op + length)
    modifies dst
    ensures !o.Failed? ==> o.out <= dst.Length
    ensures View(o, dst[..])
            == Onto(SlowMatch(src, ip + length, code, op + length, dst.Length), old(dst[..op]) + src[ip..ip + length])
  {
    WildCopy8From(src, ip, dst, op, op + length);
    o := MatchPart(src, dst, ip + length, op + length, code, at);
  }

  /** A sequence that reaches into the end of a buffer without being the last one is refused. */
  lemma FailsAtEnd(src: seq<byte>, pos: nat, ip: nat, length: nat, op: nat, cap: nat)
    requires pos < |src| && ReadLength(src, pos + 1, src[pos] / 16) == Length(length, ip)
    requires !(length < RUN_MASK && pos + 1 < |src| - 16 && op <= cap - 32)
    requires op + length > cap - MFLIMIT || ip + length > |src| - 8
    requires ip + length != |src| || op + length > cap
    ensures forall out: seq<byte> | |out| == op :: NextStep(src, pos, out, cap) == Failed
  {
  }

  /** A sequence that enters the shortcut. */
  lemma ShortNext(dest: nat, src: seq<byte>, pos: nat, out: seq<byte>, cap: nat)
    requires pos + 1 < |src| - 16 && |out| <= cap - 32 && src[pos] / 16 != RUN_MASK
    requires !Overruns(dest, src, pos, |out|, cap)
    ensures var length, code := src[pos] / 16, src[pos] % 16; var p := pos + 1 + length;
            && NextStep(src, pos, out, cap) == Onto(AfterLits(src, p, code, |out| + length, cap, true), out + src[pos + 1..p])
            && !EndsAtTop(dest, src, p, code, |out| + length)
  {
    var length := src[pos] / 16;
    var lits := src[pos + 1..pos + 1 + length];
    LitsAtFrom(src, pos, length, pos + 1);
    NextAfterLits(src, pos, out, lits, pos + 1 + length, cap);
    OverrunAfterLits(dest, src, pos, |out|, lits, pos + 1 + length, cap);
  }

  /** The two-stage shortcut: 16 bytes for the literals, 18 for a plain match. */
  method ShortcutStep(src: seq<byte>, dst: array<byte>, pos: nat, op: nat, at: Place) returns (o: Outcome<nat>)
    requires |src| <= INT_MAX && pos + 1 < |src| - 16 && op <= dst.Length - 32 && dst.Length <= INT_MAX
    requires src[pos] / 16 != RUN_MASK
    requires Clear(at, |src|, dst.Length) && !Overruns(at.dest, src, pos, op, dst.Length)
    modifies dst
    ensures !o.Failed? ==> o.out <= dst.Length
    ensures View(o, dst[..]) == NextStep(src, pos, old(dst[..op]), dst.Length)
  {
    ShortNext(at.dest, src, pos, dst[..op], dst.Length);
    o := CopyShort(src, dst, pos + 1, op, src[pos] / 16, src[pos] % 16, at);
  }

  /** The literals at `ip`, copied as sixteen bytes, and the match after them. */
  method CopyShort(src: seq<byte>, dst: array<byte>, ip: nat, op: nat, length: nat, code: nat, at: Place) returns (o: Outcome<nat>)
    requires |src| <= INT_MAX && ip < |src| - 16 && op <= dst.Length - 32 && dst.Length <= INT_MAX
    requires length < RUN_MASK && code <= RUN_MASK
    requires Clear(at, |src|, dst.Length) && !EndsAtTop(at.dest, src, ip + length, code, op + length)
    modifies dst
    ensures !o.Failed? ==> o.out <= dst.Length
    ensures View(o, dst[..])
            == Onto(AfterLits(src, ip + length, code, op + length, dst.Length, true), old(dst[..op]) + src[ip..ip + length])
  {
    MemcpyFrom(src, ip, dst, op, 16);
    assert dst[..op + length] == old(dst[..op]) + src[ip..ip + length];
    o := ShortMatch(src, dst, ip + length, op + length, code, at);
  }

  method Advanced(dst: array<byte>, next: nat, op: nat) returns (o: Outcome<nat>)
    requires op <= dst.Length
    ensures o == More(next, op) && View(o, dst[..]) == More(next, dst[..op])
  {
    assert dst[..][..op] == dst[..op];
    o := More(next, op);
  }

  /** The second stage of the shortcut. */
  method ShortMatch(src: seq<byte>, dst: array<byte>, p: nat, op: nat, code: nat, at: Place) returns (o: Outcome<nat>)
    requires p + 2 < |src| <= INT_MAX && op + 18 <= dst.Length <= INT_MAX && code <= RUN_MASK
    requires Clear(at, |src|, dst.Length) && !EndsAtTop(at.dest, src, p, code, op)
    modifies dst
    ensures !o.Failed? ==> o.out <= dst.Length
    ensures View(o, dst[..]) == Onto(AfterLits(src, p, code, op, dst.Length, true), old(dst[..op]))
  {
    var offset := Offset(src, p);
    var outside := OutsideBuffer(at, op, offset);
    if code != RUN_MASK && offset >= 8 && !outside {
      o := CopyPlain(dst, op, p + 2, offset, code + MINMATCH);
    } else {
      o := MatchPart(src, dst, p, op, code, at);
    }
  }

  method CopyPlain(dst: array<byte>, op: nat, next: nat, offset: nat, length: nat) returns (o: Outcome<nat>)
    requires 8 <= offset <= op && op + 18 <= dst.Length && length <= 18
    modifies dst
    ensures o == More(next, op + length) && View(o, dst[..]) == Onto(Taken(next, offset, length), old(dst[..op]))
  {
    CopyEighteen(dst, op, offset, length);
    o := Advanced(dst, next, op + length);
  }

  /** The shortcut's match copy: 18 bytes whatever the length. */
  method CopyEighteen(dst: array<byte>, op: nat, offset: nat, length: nat)
    requires 8 <= offset <= op && op + 18 <= dst.Length && length <= 18
    modifies dst
    ensures dst[..op + length] == Repeat(old(dst[..op]), offset, length)
  {
    var m := op - offset;
    Memcpy(dst, op, m, 8);
    Memcpy(dst, op + 8, m + 8, 8);
    Memcpy(dst, op + 16, m + 16, 2);
    ghost var s := dst[..];
    RepeatUnique(s, op, op + length, offset);
    assert s[..op] == old(dst[..op]);
  }

  /**
   LZ4_decompress_safe.  The result is non-negative exactly when `Decode` accepts, and then
   the bytes written are what the format's reference reading of the block says.
   */
  method DecompressSafe(src: seq<byte>, dst: array<byte>, at: Place) returns (r: int)
    requires |src| <= INT_MAX && dst.Length <= INT_MAX && Clear(at, |src|, dst.Length)
    requires NoOverrun(at.dest, src, 0, [], dst.Length)
    modifies dst
    ensures r >= 0 <==> Decode(src, dst.Length).Some?
    ensures r >= 0 ==> r <= dst.Length && Decode(src, dst.Length) == Some(dst[..r])
    ensures r >= 0 ==> Interpret(src, 0, [], true) == Some(dst[..r])
  {
    if dst.Length == 0 {
      r := if |src| == 1 && src[0] == 0 then 0 else -1;
      if r == 0 { DecodeSound(src, 0); }
      return;
    }
    if |src| == 0 { return -1; }
    var ip, op := 0, 0;
    while true
      invariant ip < |src| && op <= dst.Length
      invariant SafeDecode(src, ip, dst[..op], dst.Length) == SafeDecode(src, 0, [], dst.Length)
      invariant NoOverrun(at.dest, src, ip, dst[..op], dst.Length)
      decreases |src| - ip
    {
      var o := DecodeStep(src, dst, ip, op, at);
      match o {
        case Failed => return -ip - 1;
        case Done(end) =>
          DecodeSound(src, dst.Length);
          return end;
        case More(next, end) => ip, op := next, end;
      }
    }
  }
}
