/**
 The greedy compressor of lz4.c (`LZ4_compress_generic_validated`) without dictionaries,
 in its three output modes.  Its output is a block of the format that stands for the
 source (in fill mode, for the consumed part of it), keeps the parsing restrictions, and
 stays in its buffer; without an output limit it stays within LZ4_COMPRESSBOUND.
 */
module Lz4Compress {
  import opened Basics
  import opened Lz4Format
  import opened Lz4Emit
  import opened Lz4Search

  // ---------------------------------------------------------------- room in the output

  /**
   The room left when the sequences up to `anchor` fill `op` bytes.  Without a limit it is
   the amortised size bound; in fill mode it is enough for the literals that the parsing
   restrictions ask for after the last match.
   */
  ghost predicate Room(c: Call, size: nat, seqs: seq<Sequence>, anchor: nat, op: nat)
  {
    match c.mode
    case NotLimited => op <= anchor + anchor / 255 && CompressBound(|c.src|) <= size
    case LimitedOutput => c.olimit <= size && (if seqs == [] then op == 0 else op + 6 <= c.olimit)
    case FillOutput =>
      && c.olimit <= size
      && (if seqs == [] then op == 0
          else op + 6 <= c.olimit && (seqs[|seqs| - 1].mlen < RUN_MASK + MINMATCH ==> op + 9 <= c.olimit))
  }

  /** The room left when the token and literals of the next sequence are written too. */
  ghost predicate LiteralRoom(c: Call, size: nat, ip: nat, op: nat)
  {
    match c.mode
    case NotLimited => op <= ip + ip / 255 + 2 && CompressBound(|c.src|) <= size
    case LimitedOutput => op + 5 <= c.olimit <= size
    case FillOutput => op <= c.olimit <= size
  }

  /** Where the encoder stands: after a match, or after the literals that end at `ip`. */
  datatype Where = AfterMatch | AfterLiterals(ip: nat)

  /** The sequences up to `anchor` are written, and perhaps the token and literals of the next one. */
  ghost predicate State(c: Call, d: seq<byte>, seqs: seq<Sequence>, anchor: nat, op: nat, w: Where)
  {
    match w
    case AfterMatch =>
      && op <= |d| && (seqs != [] ==> anchor + LASTLITERALS <= |c.src|)
      && Covers(c.src, seqs, anchor) && d[..op] == EncodeAll(seqs) && Room(c, |d|, seqs, anchor, op)
    case AfterLiterals(ip) =>
      && op <= |d| && anchor <= ip <= |c.src| && (seqs != [] ==> anchor + LASTLITERALS <= |c.src|)
      && Covers(c.src, seqs, anchor) && Room(c, |d|, seqs, anchor, |EncodeAll(seqs)|)
      && d[..op] == EncodeAll(seqs) + EncodeLits(c.src[anchor..ip], 0) && LiteralRoom(c, |d|, ip, op)
  }

  ghost predicate Between(c: Call, d: seq<byte>, seqs: seq<Sequence>, anchor: nat, op: nat)
  {
    State(c, d, seqs, anchor, op, AfterMatch)
  }

  ghost predicate Started(c: Call, d: seq<byte>, seqs: seq<Sequence>, anchor: nat, ip: nat, op: nat)
  {
    State(c, d, seqs, anchor, op, AfterLiterals(ip))
  }

  /** What is written when a sequence has been started. */
  datatype Written = Written(c: Call, d: seq<byte>, seqs: seq<Sequence>, anchor: nat, ip: nat, op: nat)

  type Begun = w: Written | w.op > 0 ==> Started(w.c, w.d, w.seqs, w.anchor, w.ip, w.op)
    ghost witness Written(Params([0], 0, ByU32, false, NotLimited, 0, 1), [], [], 0, 0, 0)

  type Ended = w: Written | w.op > 0 ==> Between(w.c, w.d, w.seqs, w.anchor, w.op)
    ghost witness Written(Params([0], 0, ByU32, false, NotLimited, 0, 1), [], [], 0, 0, 0)

  // ---------------------------------------------------------------- one match

  /** A match appended to what has been emitted. */
  lemma ExtendCovers(src: seq<byte>, seqs: seq<Sequence>, anchor: nat, ip: nat, end: nat, s: Sequence)
    requires Covers(src, seqs, anchor) && anchor <= ip && end + LASTLITERALS <= |src| && ip + MFLIMIT <= |src|
    requires ValidSequence(s) && s.lits == src[anchor..ip] && s.mlen == end - ip && Matches(src, ip, end, s.offset)
    ensures Covers(src, seqs + [s], end) && EncodeAll(seqs + [s]) == EncodeAll(seqs) + EncodeSequence(s)
  {
    var more := seqs + [s];
    assert more[..|more| - 1] == seqs;
    assert src[..anchor] + s.lits == src[..ip];
    MatchesCopies(src, ip, end, s.offset);
    RepeatUnique(src, ip, end, s.offset);
  }

  /** In fill mode, the longest match code whose bytes leave room for a last sequence. */
  function ShortenedCode(room: nat): (r: nat)
    requires 9 <= room
    ensures (r + 240) / 255 == room - 6 && r >= 14 + 3 * 255
  {
    15 - 1 + (room - 1 - LASTLITERALS) * 255
  }

  /** The counted match reaches past every position that the search has entered into the table. */
  lemma MatchEnd(src: seq<byte>, ip: nat, filled: nat, offset: nat, code: nat)
    requires ip <= filled && filled + MFLIMIT <= |src| && Matches(src, ip, filled + MINMATCH, offset)
    requires var end := ip + MINMATCH + code;
             && end <= |src| - LASTLITERALS && Matches(src, ip + MINMATCH, end, offset)
             && (end == |src| - LASTLITERALS || src[end] != src[end - offset])
    ensures filled + MINMATCH <= ip + MINMATCH + code && Matches(src, ip, ip + MINMATCH + code, offset)
  {
    var end := ip + MINMATCH + code;
    assert end < filled + MINMATCH ==> SameAt(src, end, offset);
  }

  datatype Status = Ok | NoRoom

  function Max(a: nat, b: nat): nat { if a < b then b else a }

  /**
   The length of a match, cut down in fill mode to what the output can still describe.
   `op` is where its length bytes would go.
   */
  method MatchLength(c: Call, table: array<nat>, ghost dst: array<byte>, op: nat, ip0: nat, mpos: nat, filledIp: nat)
      returns (st: Status, code: nat)
    requires mpos < ip0 && filledIp + MFLIMIT <= |c.src| && ip0 + MFLIMIT <= |c.src|
    requires Matches(c.src, ip0, Max(ip0, filledIp) + MINMATCH, ip0 - mpos)
    requires TableOk(c, table[..], Max(ip0, filledIp) + 1)
    requires c.mode.FillOutput? ==> op + 9 <= c.olimit
    modifies table
    ensures TableOk(c, table[..], |c.src|) && dst[..] == old(dst[..])
    ensures st.NoRoom? ==> c.mode.LimitedOutput?
    ensures st.Ok? ==>
              && ip0 + MINMATCH + code + LASTLITERALS <= |c.src|
              && Matches(c.src, ip0, ip0 + MINMATCH + code, ip0 - mpos)
              && TableOk(c, table[..], ip0 + MINMATCH + code)
              && (filledIp < ip0 + MINMATCH + code || (c.mode.FillOutput? && op + ExtraBytes(code) + 6 == c.olimit))
              && (!c.mode.NotLimited? ==> op + ExtraBytes(code) + 1 + LASTLITERALS <= c.olimit)
  {
    ghost var filled := Max(ip0, filledIp);
    code := Count(c.src, ip0 + MINMATCH, mpos + MINMATCH, |c.src| - LASTLITERALS);
    MatchEnd(c.src, ip0, filled, ip0 - mpos, code);
    var ip := ip0 + MINMATCH + code;
    ExtraSize(code);
    TableLater(c, table[..], filled + 1, ip);
    TableLater(c, table[..], ip, |c.src|);
    if !c.mode.NotLimited? && op + (1 + LASTLITERALS) + (code + 240) / 255 > c.olimit {
      if c.mode.LimitedOutput? { return NoRoom, code; }
      var newMatchCode := ShortenedCode(c.olimit - op);
      ip := ip - (code - newMatchCode);
      code := newMatchCode;
      ExtraSize(code);
      if ip <= filledIp {
        ClearPositions(c, table, ip, filledIp);
      } else {
        TableLater(c, table[..], filled + 1, ip);
      }
      TableLater(c, table[..], ip, |c.src|);
    }
    st := Ok;
  }

  /** The room after a match, from the room before it. */
  lemma RoomAfter(c: Call, size: nat, more: seq<Sequence>, ip0: nat, code: nat, op0: nat, op: nat)
    requires LiteralRoom(c, size, ip0, op0) && more != []
    requires more[|more| - 1].mlen == code + MINMATCH && op == op0 + 2 + ExtraBytes(code)
    requires c.mode.FillOutput? ==> op0 + 11 <= c.olimit
    requires !c.mode.NotLimited? ==> op + 1 + LASTLITERALS <= c.olimit
    ensures Room(c, size, more, ip0 + MINMATCH + code, op)
  {
    ExtraSize(code);
  }

  /** One more sequence: from the literals written to the state after its match. */
  lemma Advance(w: Begun, d: seq<byte>, code: nat, s: Sequence, op: nat) returns (e: Ended)
    requires 0 < w.op && w.ip + MINMATCH + code + LASTLITERALS <= |w.c.src| && w.ip + MFLIMIT <= |w.c.src| && |d| == |w.d|
    requires ValidSequence(s) && s.lits == w.c.src[w.anchor..w.ip] && s.mlen == code + MINMATCH
    requires Matches(w.c.src, w.ip, w.ip + MINMATCH + code, s.offset)
    requires op == w.op + 2 + ExtraBytes(code) && op <= |d|
    requires w.c.mode.FillOutput? ==> w.op + 11 <= w.c.olimit
    requires !w.c.mode.NotLimited? ==> op + 1 + LASTLITERALS <= w.c.olimit
    requires d[..op] == EncodeAll(w.seqs) + EncodeSequence(s)
    ensures e == Written(w.c, d, w.seqs + [s], w.ip + MINMATCH + code, w.ip + MINMATCH + code, op)
  {
    var more, end := w.seqs + [s], w.ip + MINMATCH + code;
    ExtendCovers(w.c.src, w.seqs, w.anchor, w.ip, end, s);
    RoomAfter(w.c, |d|, more, w.ip, code, w.op, op);
    assert Between(w.c, d, more, end, op);
    e := Written(w.c, d, more, end, end, op);
  }

  lemma WriteRoom(c: Call, size: nat, ip0: nat, op0: nat, code: nat)
    requires LiteralRoom(c, size, ip0, op0) && ip0 + MINMATCH + code + LASTLITERALS <= |c.src| <= MAX_INPUT_SIZE
    requires !c.mode.NotLimited? ==> op0 + 2 + ExtraBytes(code) + 1 + LASTLITERALS <= c.olimit
    ensures op0 + 2 + ExtraBytes(code) + 3 <= size
  {
    ExtraSize(code);
  }

  /**
   From _next_match on: the match of the sequence whose token and literals have just been
   written.  In fill mode the caller has already checked the room for the offset.
   */
  method PutMatch(c: Call, table: array<nat>, dst: array<byte>, token: nat, op0: nat,
                  anchor: nat, ip0: nat, mpos: nat, filledIp: nat, ghost w: Begun)
      returns (ok: bool, op: nat, ip: nat, ghost e: Ended)
    requires w == Written(c, dst[..], w.seqs, anchor, ip0, op0) && 0 < op0 && anchor <= ip0 && token == |EncodeAll(w.seqs)|
    requires mpos < ip0 && ip0 - mpos <= DISTANCE_MAX && filledIp + MFLIMIT <= |c.src| && ip0 + MFLIMIT <= |c.src|
    requires Matches(c.src, ip0, Max(ip0, filledIp) + MINMATCH, ip0 - mpos)
    requires TableOk(c, table[..], Max(ip0, filledIp) + 1)
    requires c.mode.FillOutput? ==> op0 + 11 <= c.olimit
    modifies table, dst
    ensures !ok ==> c.mode.LimitedOutput? && TableOk(c, table[..], |c.src|)
    ensures ok ==> anchor < ip && TableOk(c, table[..], ip)
    ensures ok ==> e == Written(c, dst[..], e.seqs, ip, ip, op) && 0 < op && e.seqs != []
    ensures ok ==> filledIp < ip || (c.mode.FillOutput? && op + 6 == c.olimit)
  {
    var st, code := MatchLength(c, table, dst, op0 + 2, ip0, mpos, filledIp);
    ok, op, ip, e := st.Ok?, op0, ip0 + MINMATCH + code, *;
    if !ok { return; }
    ghost var t := table[..];
    op, e := AppendMatch(c, table, dst, token, op0, anchor, ip0, ip, code, ip0 - mpos, w, filledIp);
    assert table[..] == t;
  }

  /** The bytes of one match, after its length has been settled. */
  method AppendMatch(c: Call, ghost table: array<nat>, dst: array<byte>, token: nat, op0: nat, anchor: nat, ip0: nat, ghost ip: nat, code: nat, offset: nat, ghost w: Begun,
                     ghost filledIp: nat)
      returns (op: nat, ghost e: Ended)
    requires w == Written(c, dst[..], w.seqs, anchor, ip0, op0) && 0 < op0 && token == |EncodeAll(w.seqs)| && offset <= DISTANCE_MAX
    requires ip == ip0 + MINMATCH + code && ip + LASTLITERALS <= |c.src| && ip0 + MFLIMIT <= |c.src|
    requires Matches(c.src, ip0, ip, offset)
    requires c.mode.FillOutput? ==> op0 + 11 <= c.olimit
    requires !c.mode.NotLimited? ==> op0 + 2 + ExtraBytes(code) + 1 + LASTLITERALS <= c.olimit
    requires filledIp < ip || (c.mode.FillOutput? && op0 + 2 + ExtraBytes(code) + 6 == c.olimit)
    modifies dst
    ensures table[..] == old(table[..])
    ensures filledIp < ip || (c.mode.FillOutput? && op + 6 == c.olimit)
    ensures e == Written(c, dst[..], e.seqs, ip, ip, op) && 0 < op && e.seqs != []
  {
    ghost var s := Sequence(c.src[anchor..ip0], offset, code + MINMATCH);
    ExtraSize(code);
    WriteRoom(c, dst.Length, ip0, op0, code);
    op := PutMatchBytes(dst, token, op0, offset, code, EncodeAll(w.seqs), s);
    e := Advance(w, dst[..], code, s, op);
  }

  // ---------------------------------------------------------------- literals before a match

  datatype Next = Search | Finish | Stop | Encode

  lemma RoomForLiterals(c: Call, size: nat, seqs: seq<Sequence>, anchor: nat, op: nat, n: nat)
    requires Room(c, size, seqs, anchor, op) && anchor + n + MFLIMIT <= |c.src|
    requires match c.mode
             case NotLimited => true
             case LimitedOutput => op + 1 + n + (2 + 1 + LASTLITERALS) + n / 255 <= c.olimit
             case FillOutput => op + 1 + (n + 240) / 255 + n + 2 + 1 + MFLIMIT - MINMATCH <= c.olimit
    ensures op + 1 + |Extra(n)| + n + 7 <= size && op + 9 <= size
    ensures LiteralRoom(c, size, anchor + n, op + 1 + |Extra(n)| + n)
  {
    ExtraSize(n);
  }

  /** Token and literals of the next sequence, unless the mode's room check says otherwise. */
  method StartSequence(c: Call, ghost table: array<nat>, dst: array<byte>, anchor: nat, ip: nat, op0: nat, ghost seqs: seq<Sequence>)
      returns (next: Next, op: nat)
    requires Between(c, dst[..], seqs, anchor, op0) && anchor <= ip && ip + MFLIMIT <= |c.src|
    modifies dst
    ensures table[..] == old(table[..]) && !next.Search?
    ensures next.Encode? ==> Started(c, dst[..], seqs, anchor, ip, op)
    ensures next.Stop? ==> c.mode.LimitedOutput?
    ensures next.Finish? ==> op == op0 && Between(c, dst[..], seqs, anchor, op)
  {
    var litLength := ip - anchor;
    if c.mode.LimitedOutput? && op0 + 1 + litLength + (2 + 1 + LASTLITERALS) + litLength / 255 > c.olimit {
      return Stop, op0;
    }
    if c.mode.FillOutput? && op0 + 1 + (litLength + 240) / 255 + litLength + 2 + 1 + MFLIMIT - MINMATCH > c.olimit {
      return Finish, op0;
    }
    ghost var lits := c.src[anchor..ip];
    assert |lits| == litLength;
    RoomForLiterals(c, dst.Length, seqs, anchor, op0, |lits|);
    op := PutLiterals(dst, op0, c.src, anchor, ip, lits);
    next := Encode;
  }

  /** A token without literals, right after a match. */
  method StartEmpty(c: Call, ghost table: array<nat>, dst: array<byte>, anchor: nat, op0: nat, ghost seqs: seq<Sequence>) returns (op: nat)
    requires Between(c, dst[..], seqs, anchor, op0) && seqs != []
    modifies dst
    ensures Started(c, dst[..], seqs, anchor, anchor, op) && op == op0 + 1 && table[..] == old(table[..])
  {
    ghost var w, e := dst[..op0], EncodeLits(c.src[anchor..anchor], 0);
    dst[op0] := 0;
    op := op0 + 1;
    NoLiterals(c.src, anchor);
    AppendOne(dst[..op], w, e);
  }

  lemma NoLiterals(src: seq<byte>, anchor: nat)
    requires anchor <= |src|
    ensures var e := EncodeLits(src[anchor..anchor], 0); |e| == 1 && e[0] == 0
  {
  }

  lemma AppendOne(d: seq<byte>, w: seq<byte>, e: seq<byte>)
    requires |e| == 1 && |d| == |w| + 1 && w <= d && d[|w|] == e[0]
    ensures d == w + e
  {
  }

  lemma Rewound(c: Call, d: seq<byte>, seqs: seq<Sequence>, anchor: nat, ip: nat, op: nat)
    requires Started(c, d, seqs, anchor, ip, op)
    ensures Between(c, d, seqs, anchor, |EncodeAll(seqs)|)
  {
    assert d[..|EncodeAll(seqs)|] == d[..op][..|EncodeAll(seqs)|];
  }

  /** What the match at `ip` needs: equal bytes and a clean table up to the last position entered. */
  ghost predicate Ready(c: Call, t: seq<nat>, ip: nat, mpos: nat, filledIp: nat, op: nat)
  {
    && mpos < ip && ip - mpos <= DISTANCE_MAX && filledIp + MFLIMIT <= |c.src| && ip + MFLIMIT <= |c.src|
    && ((Matches(c.src, ip, Max(ip, filledIp) + MINMATCH, ip - mpos) && TableOk(c, t, Max(ip, filledIp) + 1)) ||
        (c.mode.FillOutput? && op + 11 > c.olimit && TableOk(c, t, |c.src|)))
  }

  /** What holds when the next thing to do is `next`, with the source done up to `anchor`. */
  ghost predicate Phase(c: Call, t: seq<nat>, d: seq<byte>, next: Next, seqs: seq<Sequence>, anchor: nat,
                        token: nat, op: nat, mpos: nat, filledIp: nat)
  {
    match next
    case Stop => c.mode.LimitedOutput? && TableOk(c, t, |c.src|)
    case Finish => TableOk(c, t, |c.src|) && Between(c, d, seqs, anchor, op)
    case Search => anchor + MFLIMIT <= |c.src| && TableOk(c, t, anchor + 1) && Between(c, d, seqs, anchor, op)
    case Encode => Started(c, d, seqs, anchor, anchor, op) && token == |EncodeAll(seqs)| && Ready(c, t, anchor, mpos, filledIp, op)
  }

  /** One match, and the probe for another right after it. */
  method EncodeOne(c: Call, table: array<nat>, dst: array<byte>, token0: nat, op0: nat,
                   anchor0: nat, ip0: nat, mpos0: nat, filledIp: nat, ghost seqs0: seq<Sequence>)
      returns (next: Next, anchor: nat, token: nat, op: nat, mpos: nat, ghost seqs: seq<Sequence>)
    requires Started(c, dst[..], seqs0, anchor0, ip0, op0) && token0 == |EncodeAll(seqs0)|
    requires Ready(c, table[..], ip0, mpos0, filledIp, op0)
    modifies table, dst
    ensures anchor0 < anchor || next.Finish? || next.Stop?
    ensures Phase(c, table[..], dst[..], next, seqs, anchor, token, op, mpos, filledIp)
  {
    if c.mode.FillOutput? && op0 + 2 + 1 + MFLIMIT - MINMATCH > c.olimit {
      TableWhole(c, table[..], ip0, mpos0, filledIp, op0);
      Rewound(c, dst[..], seqs0, anchor0, ip0, op0);
      next, anchor, token, op, mpos, seqs := Finish, anchor0, token0, token0, mpos0, seqs0;
    } else {
      var ok;
      ghost var e;
      ghost var w: Begun := Written(c, dst[..], seqs0, anchor0, ip0, op0);
      ok, op, anchor, e := PutMatch(c, table, dst, token0, op0, anchor0, ip0, mpos0, filledIp, w);
      next, token, op, mpos := Continue(c, table, dst, ok, anchor, op, filledIp, e);
      seqs := e.seqs;
    }
  }

  /** After a match: the end of the source, or the probe. */
  method Continue(c: Call, table: array<nat>, dst: array<byte>, ok: bool, anchor: nat, op0: nat, filledIp: nat, ghost e: Ended)
      returns (next: Next, token: nat, op: nat, mpos: nat)
    requires !ok ==> c.mode.LimitedOutput? && TableOk(c, table[..], |c.src|)
    requires ok ==> e == Written(c, dst[..], e.seqs, anchor, anchor, op0) && 0 < op0 && e.seqs != []
    requires ok ==> 2 <= anchor && TableOk(c, table[..], anchor) && filledIp + MFLIMIT <= |c.src|
    requires ok ==> filledIp < anchor || (c.mode.FillOutput? && op0 + 6 == c.olimit)
    modifies table, dst
    ensures !ok ==> next.Stop?
    ensures Phase(c, table[..], dst[..], next, e.seqs, anchor, token, op, mpos, filledIp)
  {
    next, token, op, mpos := Stop, op0, op0, 0;
    if ok {
      if anchor >= |c.src| - MFLIMIT + 1 {
        TableLater(c, table[..], anchor, |c.src|);
        next := Finish;
      } else {
        next, token, op, mpos := Probe(c, table, dst, anchor, op0, filledIp, e.seqs);
      }
    }
  }

  /** The probe after a match, and the empty literal run of the match that it may find. */
  method Probe(c: Call, table: array<nat>, dst: array<byte>, anchor: nat, op0: nat, filledIp: nat, ghost seqs: seq<Sequence>)
      returns (next: Next, token: nat, op: nat, mpos: nat)
    requires Between(c, dst[..], seqs, anchor, op0) && seqs != [] && 2 <= anchor && anchor + MFLIMIT <= |c.src|
    requires TableOk(c, table[..], anchor) && filledIp + MFLIMIT <= |c.src|
    requires filledIp < anchor || (c.mode.FillOutput? && op0 + 6 == c.olimit)
    modifies table, dst
    ensures Phase(c, table[..], dst[..], next, seqs, anchor, token, op, mpos, filledIp)
  {
    var again;
    ghost var d := dst[..];
    again, mpos := TestNext(c, table, anchor);
    assert dst[..] == d;
    token, op := op0, op0;
    if again {
      op := StartEmpty(c, table, dst, anchor, op, seqs);
      ReadyAgain(c, table[..], anchor, mpos, filledIp, op);
      next := Encode;
    } else {
      next := Search;
    }
  }

  lemma ReadyAgain(c: Call, t: seq<nat>, ip: nat, mpos: nat, filledIp: nat, op: nat)
    requires Found(c.src, ip, mpos) && TableOk(c, t, ip + 1) && filledIp + MFLIMIT <= |c.src|
    requires filledIp < ip || (c.mode.FillOutput? && op + 5 == c.olimit)
    ensures Ready(c, t, ip, mpos, filledIp, op)
  {
    TableLater(c, t, ip + 1, |c.src|);
  }

  /** The matches that follow one another without literals between them. */
  method EncodeMatches(c: Call, table: array<nat>, dst: array<byte>, token0: nat, op0: nat,
                       anchor0: nat, ip0: nat, mpos0: nat, filledIp: nat, ghost seqs0: seq<Sequence>)
      returns (next: Next, anchor: nat, op: nat, ghost seqs: seq<Sequence>)
    requires Started(c, dst[..], seqs0, anchor0, ip0, op0) && token0 == |EncodeAll(seqs0)|
    requires Ready(c, table[..], ip0, mpos0, filledIp, op0)
    modifies table, dst
    ensures !next.Encode? && Phase(c, table[..], dst[..], next, seqs, anchor, 0, op, 0, 0)
    ensures anchor0 < anchor || next.Finish? || next.Stop?
  {
    var token, mpos;
    next, anchor, token, op, mpos, seqs := EncodeOne(c, table, dst, token0, op0, anchor0, ip0, mpos0, filledIp, seqs0);
    while next.Encode?
      invariant Phase(c, table[..], dst[..], next, seqs, anchor, token, op, mpos, filledIp)
      invariant anchor0 < anchor || next.Finish? || next.Stop?
      decreases next.Encode?, |c.src| - anchor
    {
      next, anchor, token, op, mpos, seqs := EncodeOne(c, table, dst, token, op, anchor, anchor, mpos, filledIp, seqs);
    }
  }

  lemma TableWhole(c: Call, t: seq<nat>, ip: nat, mpos: nat, filledIp: nat, op: nat)
    requires Ready(c, t, ip, mpos, filledIp, op)
    ensures TableOk(c, t, |c.src|)
  {
    if TableOk(c, t, Max(ip, filledIp) + 1) { TableLater(c, t, Max(ip, filledIp) + 1, |c.src|); }
  }

  // ---------------------------------------------------------------- the whole block

  /** In fill mode, the longest last run whose bytes fit in `room`. */
  function FillingRun(room: nat): (r: nat)
    requires 1 <= room
    ensures 1 + (r + 240) / 255 + r <= room && r <= room - 1
    ensures 6 <= room ==> 5 <= r
    ensures 9 <= room ==> 8 <= r
  {
    room - 1 - (room - 1 + 256 - RUN_MASK) / 256
  }

  /** In fill mode, all of the source is consumed, or as much as the target is long, but for one byte in 255 and two. */
  predicate Filled(c: Call, consumed: nat)
  {
    c.mode.FillOutput? && consumed < |c.src| ==> c.olimit <= consumed + consumed / 255 + 2
  }

  lemma CutRunFills(anchor: nat, op: nat, room: nat)
    requires op <= anchor + anchor / 255 && 1 <= room
    ensures var consumed := anchor + FillingRun(room); op + room <= consumed + consumed / 255 + 2
  {
    var q, run := (room - 1 + 241) / 256, FillingRun(room);
    assert run == room - 1 - q && q <= run / 255 + 1;
  }

  /** The last literals, cut down in fill mode to what the output can hold. */
  method LastLiterals(c: Call, dst: array<byte>, anchor: nat, op: nat, ghost seqs: seq<Sequence>) returns (r: nat, consumed: nat)
    requires Between(c, dst[..], seqs, anchor, op)
    modifies dst
    ensures r > 0 ==> r <= dst.Length && consumed <= |c.src| && IsBlockFor(dst[..r], c.src[..consumed])
    ensures r == 0 ==> c.mode.LimitedOutput?
    ensures (!c.mode.FillOutput? ==> consumed == |c.src|) && Filled(c, consumed)
    ensures if c.mode.NotLimited? then r <= CompressBound(|c.src|) else r <= c.olimit
  {
    var ok, lastRun := LastRun(c, dst.Length, anchor, op, seqs);
    consumed := |c.src|;
    if !ok { return 0, consumed; }
    FinishBlock(c.src, seqs, anchor, lastRun);
    r := PutFinal(dst, op, c.src, anchor, lastRun);
    consumed := anchor + lastRun;
  }

  /** How long the last run is, or that there is no room for it. */
  method LastRun(c: Call, size: nat, anchor: nat, op: nat, ghost seqs: seq<Sequence>) returns (ok: bool, run: nat)
    requires op <= size && (seqs != [] ==> anchor + LASTLITERALS <= |c.src|)
    requires Covers(c.src, seqs, anchor) && op == |EncodeAll(seqs)| && Room(c, size, seqs, anchor, op)
    ensures !ok ==> c.mode.LimitedOutput?
    ensures ok ==> anchor + run <= |c.src| && Restricted(seqs, anchor + run) && op + 1 + |Extra(run)| + run <= size
    ensures ok && !c.mode.FillOutput? ==> anchor + run == |c.src|
    ensures ok ==> Filled(c, anchor + run)
    ensures ok ==> op + 1 + |Extra(run)| + run <= if c.mode.NotLimited? then CompressBound(|c.src|) else c.olimit
  {
    ok, run := true, |c.src| - anchor;
    if !c.mode.NotLimited? && op + run + 1 + (run + 255 - RUN_MASK) / 255 > c.olimit {
      if c.mode.LimitedOutput? { return false, 0; }
      run := FillingRun(c.olimit - op);
      EncodedSize(seqs);
      CutRunFills(anchor, op, c.olimit - op);
    }
    ExtraSize(run);
  }

  /** LZ4_compress_generic_validated, on the table and the output buffer. */
  method CompressBlock(c: Call, table: array<nat>, dst: array<byte>) returns (r: nat, consumed: nat)
    requires TableOk(c, table[..], 1)
    requires if c.mode.NotLimited? then CompressBound(|c.src|) <= dst.Length else c.olimit <= dst.Length
    modifies table, dst
    ensures TableOk(c, table[..], |c.src|)
    ensures r > 0 ==> r <= dst.Length && consumed <= |c.src| && IsBlockFor(dst[..r], c.src[..consumed])
    ensures r == 0 ==> c.mode.LimitedOutput?
    ensures (!c.mode.FillOutput? ==> consumed == |c.src|) && Filled(c, consumed)
    ensures if c.mode.NotLimited? then r <= CompressBound(|c.src|) else r <= c.olimit
  {
    var anchor: nat, op: nat := 0, 0;
    ghost var seqs: seq<Sequence> := [];
    assert dst[..op] == EncodeAll(seqs);
    assert Covers(c.src, seqs, anchor) by { assert c.src[..0] == []; }
    TableLater(c, table[..], 1, |c.src|);
    if |c.src| >= MFLIMIT + 1 {
      ghost var d := dst[..];
      PutPosition(c, table, HashPosition(c.src, 0, c.table), 0, 1);
      assert dst[..] == d;
      var next;
      next, anchor, op, seqs := EncodeSequences(c, table, dst);
      if next.Stop? { return 0, |c.src|; }
    }
    r, consumed := LastLiterals(c, dst, anchor, op, seqs);
  }

  /** The main loop: search, catch up, literals, matches. */
  method EncodeSequences(c: Call, table: array<nat>, dst: array<byte>)
      returns (next: Next, anchor: nat, op: nat, ghost seqs: seq<Sequence>)
    requires TableOk(c, table[..], 1) && MFLIMIT + 1 <= |c.src| && Between(c, dst[..], [], 0, 0)
    modifies table, dst
    ensures next.Finish? || next.Stop?
    ensures Phase(c, table[..], dst[..], next, seqs, anchor, 0, op, 0, 0)
  {
    next, anchor, op, seqs := Search, 0, 0, [];
    while next.Search?
      invariant !next.Encode? && Phase(c, table[..], dst[..], next, seqs, anchor, 0, op, 0, 0)
      decreases next.Search?, |c.src| - anchor
    {
      next, anchor, op, seqs := EncodeFrom(c, table, dst, anchor, op, seqs);
    }
  }

  /** One turn of the main loop. */
  method EncodeFrom(c: Call, table: array<nat>, dst: array<byte>, anchor0: nat, op0: nat, ghost seqs0: seq<Sequence>)
      returns (next: Next, anchor: nat, op: nat, ghost seqs: seq<Sequence>)
    requires Between(c, dst[..], seqs0, anchor0, op0)
    requires TableOk(c, table[..], anchor0 + 1) && anchor0 + MFLIMIT <= |c.src|
    modifies table, dst
    ensures !next.Encode? && Phase(c, table[..], dst[..], next, seqs, anchor, 0, op, 0, 0)
    ensures anchor0 < anchor || next.Finish? || next.Stop?
  {
    anchor, op, seqs := anchor0, op0, seqs0;
    ghost var d := dst[..];
    var found, filledIp, mpos := FindMatch(c, table, anchor + 1);
    assert dst[..] == d;
    if found {
      var ip;
      ip, mpos := CatchUp(c.src, filledIp, mpos, anchor);
      next, anchor, op, seqs := EncodeRun(c, table, dst, anchor, op, ip, mpos, filledIp, seqs);
    } else {
      next := Finish;
    }
  }

  /** The literals before a match that has been found, and the matches from there on. */
  method EncodeRun(c: Call, table: array<nat>, dst: array<byte>, anchor0: nat, op0: nat, ip: nat, mpos: nat, filledIp: nat, ghost seqs0: seq<Sequence>)
      returns (next: Next, anchor: nat, op: nat, ghost seqs: seq<Sequence>)
    requires Between(c, dst[..], seqs0, anchor0, op0) && anchor0 <= ip && ip + MFLIMIT <= |c.src|
    requires mpos < ip && ip - mpos <= DISTANCE_MAX && filledIp + MFLIMIT <= |c.src|
    requires Matches(c.src, ip, Max(ip, filledIp) + MINMATCH, ip - mpos) && TableOk(c, table[..], Max(ip, filledIp) + 1)
    requires TableOk(c, table[..], |c.src|)
    modifies table, dst
    ensures !next.Encode? && Phase(c, table[..], dst[..], next, seqs, anchor, 0, op, 0, 0)
    ensures anchor0 < anchor || next.Finish? || next.Stop?
  {
    anchor, op, seqs := anchor0, op0, seqs0;
    next, op := StartSequence(c, table, dst, anchor, ip, op, seqs);
    if next.Encode? {
      next, anchor, op, seqs := EncodeMatches(c, table, dst, op0, op, anchor, ip, mpos, filledIp, seqs);
    }
  }
}
