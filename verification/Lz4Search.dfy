/**
 The match finder of the LZ4 compressor: hash table, search loop, backward and forward
 extension of a match.  A candidate is only ever an earlier position of the same source,
 at most 65535 bytes back, with equal bytes, whatever an earlier call left in the table.
 */
module Lz4Search {
  import opened Basics
  import opened Lz4Format

  datatype TableType = Cleared | ByPtr | ByU32 | ByU16
  datatype Directive = NotLimited | LimitedOutput | FillOutput

  const TABLE_SIZE := 8192
  const MAX_INPUT_SIZE := 0x7E00_0000
  const LIMIT_64K := 65536 + MFLIMIT - 1

  /**
   What stays fixed during one call.  Table entries are `base` plus a source position:
   `base` is the stream's offset at the start of the call, or the address of the source
   when the table holds pointers.
   */
  datatype Params = Params(src: seq<byte>, base: nat, table: TableType, dictSmall: bool,
                           mode: Directive, olimit: nat, acceleration: nat)

  type Call = c: Params | ValidCall(c) witness Params([0], 0, ByU32, false, NotLimited, 0, 1)

  predicate ValidCall(c: Params)
  {
    && !c.table.Cleared? && 1 <= c.acceleration
    && 0 < |c.src| <= MAX_INPUT_SIZE && c.base + |c.src| <= WORD
    && (c.table.ByU16? ==> c.base + |c.src| < LIMIT_64K && (c.dictSmall || c.base == 0))
    && (c.table.ByPtr? ==> c.base > DISTANCE_MAX)
    && (c.mode.FillOutput? ==> c.olimit >= 1 && !c.dictSmall && (c.base == 0 || c.table.ByPtr?))
  }

  // ---------------------------------------------------------------- the hash table

  function Read32(src: seq<byte>, p: nat): (r: nat)
    requires p + 4 <= |src|
    ensures r < WORD
  {
    src[p] as int + 256 * (src[p + 1] as int + 256 * (src[p + 2] as int + 256 * src[p + 3] as int))
  }

  /** Equal words are equal bytes. */
  lemma Read32Equal(src: seq<byte>, p: nat, q: nat)
    requires p + 4 <= |src| && q + 4 <= |src| && Read32(src, p) == Read32(src, q)
    ensures src[p] == src[q] && src[p + 1] == src[q + 1] && src[p + 2] == src[q + 2] && src[p + 3] == src[q + 3]
  {
    Digit(src[p], src[q], src[p + 1] as int + 256 * (src[p + 2] as int + 256 * src[p + 3] as int),
          src[q + 1] as int + 256 * (src[q + 2] as int + 256 * src[q + 3] as int));
    Digit(src[p + 1], src[q + 1], src[p + 2] as int + 256 * src[p + 3] as int, src[q + 2] as int + 256 * src[q + 3] as int);
    Digit(src[p + 2], src[q + 2], src[p + 3] as int, src[q + 3] as int);
  }

  lemma Digit(a: byte, b: byte, x: nat, y: nat)
    requires a + 256 * x == b + 256 * y
    ensures a == b && x == y
  {
  }

  /** LZ4_hash4 of the four bytes at `p`. */
  function HashPosition(src: seq<byte>, p: nat, table: TableType): (h: nat)
    requires p + 4 <= |src|
    ensures h < TABLE_SIZE
  {
    var product := Read32(src, p) * 2654435761 % WORD;
    if table.ByU16? then product / 524288 else product / 1048576
  }

  /** The value a table slot keeps of an index: 16 or 32 bits of it. */
  function Stored(c: Call, index: nat): nat
  {
    if c.table.ByU16? then index % 65536 else index % WORD
  }

  /**
   The entry `e` of slot `h` is harmless for a lookup at `pos`: it lies before `pos`; if it
   is not of this call then the lookup rejects it; if it is, it lies in its own slot.
   */
  ghost predicate EntryOk(c: Call, h: nat, e: nat, pos: nat)
  {
    && e < c.base + pos && (e < c.base ==> c.dictSmall || e + DISTANCE_MAX < c.base)
    && (0 < e && c.base <= e ==> e - c.base + 4 <= |c.src| && HashPosition(c.src, e - c.base, c.table) == h)
  }

  ghost predicate TableOk(c: Call, t: seq<nat>, pos: nat)
  {
    |t| == TABLE_SIZE && forall h :: 0 <= h < TABLE_SIZE ==> EntryOk(c, h, t[h], pos)
  }

  /** The tests on the index of a candidate that precede the reading of its bytes. */
  predicate Eligible(c: Call, e: nat, pos: nat)
  {
    !(c.dictSmall && e < c.base) && (c.table.ByU16? || e + DISTANCE_MAX >= c.base + pos)
  }

  /** A candidate that passes the tests is an earlier position of this source, in reach. */
  lemma EligibleReaches(c: Call, h: nat, e: nat, pos: nat)
    requires EntryOk(c, h, e, pos) && Eligible(c, e, pos) && pos + MFLIMIT <= |c.src|
    ensures c.base <= e < c.base + pos && c.base + pos - e <= DISTANCE_MAX
  {
  }

  /** A match of four bytes: what the search hands on. */
  ghost predicate Found(src: seq<byte>, ip: nat, mpos: nat)
  {
    && mpos < ip && ip - mpos <= DISTANCE_MAX && ip + MFLIMIT <= |src|
    && Matches(src, ip, ip + MINMATCH, ip - mpos)
  }

  lemma FoundAt(src: seq<byte>, ip: nat, mpos: nat)
    requires mpos < ip && ip - mpos <= DISTANCE_MAX && ip + MFLIMIT <= |src|
    requires Read32(src, mpos) == Read32(src, ip)
    ensures Found(src, ip, mpos)
  {
    Read32Equal(src, mpos, ip);
  }

  lemma TableLater(c: Call, t: seq<nat>, pos: nat, later: nat)
    requires TableOk(c, t, pos) && pos <= later
    ensures TableOk(c, t, later)
  {
    assert forall h :: 0 <= h < TABLE_SIZE && EntryOk(c, h, t[h], pos) ==> EntryOk(c, h, t[h], later);
  }

  /** Whether the entry `e` is a match for the position `ip`, and where it is. */
  method Candidate(c: Call, ghost h: nat, e: nat, ip: nat) returns (found: bool, mpos: nat)
    requires EntryOk(c, h, e, ip) && ip + MFLIMIT <= |c.src|
    ensures found ==> Found(c.src, ip, mpos)
  {
    found, mpos := false, 0;
    if Eligible(c, e, ip) {
      EligibleReaches(c, h, e, ip);
      mpos := e - c.base;
      found := Read32(c.src, mpos) == Read32(c.src, ip);
      if found { FoundAt(c.src, ip, mpos); }
    }
  }

  method PutPosition(c: Call, table: array<nat>, h: nat, pos: nat, ghost bound: nat)
    requires TableOk(c, table[..], bound)
    requires pos < bound && pos + MFLIMIT <= |c.src| && h == HashPosition(c.src, pos, c.table)
    modifies table
    ensures TableOk(c, table[..], bound)
  {
    assert Stored(c, c.base + pos) == c.base + pos;
    table[h] := Stored(c, c.base + pos);
    assert forall k :: 0 <= k < TABLE_SIZE && k != h ==> table[..][k] == old(table[..])[k];
  }

  /**
   Forgets the positions from `ip` to `filledIp`, which a shortened match has given back:
   they are the only ones at or after `ip`, and each is in its own slot.
   */
  method ClearPositions(c: Call, table: array<nat>, ip: nat, filledIp: nat)
    requires c.mode.FillOutput? && 0 < ip <= filledIp && filledIp + MFLIMIT <= |c.src|
    requires TableOk(c, table[..], filledIp + 1)
    modifies table
    ensures TableOk(c, table[..], ip)
  {
    for p := ip to filledIp + 1
      invariant TableOk(c, table[..], filledIp + 1)
      invariant forall h :: 0 <= h < TABLE_SIZE ==> !(c.base + ip <= table[..][h] < c.base + p)
    {
      ghost var before := table[..];
      table[HashPosition(c.src, p, c.table)] := 0;
      assert forall k :: 0 <= k < TABLE_SIZE ==> table[..][k] == 0 || table[..][k] == before[k];
    }
  }

  /** The search loop: one hash probe per step, with a growing stride. */
  method FindMatch(c: Call, table: array<nat>, start: nat) returns (found: bool, ip: nat, mpos: nat)
    requires TableOk(c, table[..], start) && start + MFLIMIT - 1 <= |c.src|
    modifies table
    ensures found ==> start <= ip && Found(c.src, ip, mpos) && TableOk(c, table[..], ip + 1)
    ensures TableOk(c, table[..], |c.src|)
  {
    var mflimitPlusOne := |c.src| - MFLIMIT + 1;
    var forwardIp, step, searchMatchNb := start, 1, c.acceleration * 64;
    var forwardH := HashPosition(c.src, forwardIp, c.table);
    ip, mpos := start, 0;
    while true
      invariant start <= forwardIp <= mflimitPlusOne
      invariant forwardH == HashPosition(c.src, forwardIp, c.table)
      invariant TableOk(c, table[..], forwardIp)
      invariant step >= 1 && searchMatchNb >= 64
      decreases mflimitPlusOne - forwardIp
    {
      var h := forwardH;
      var e := table[h];
      assert EntryOk(c, h, table[..][h], forwardIp);
      ip := forwardIp;
      forwardIp := forwardIp + step;
      step := searchMatchNb / 64;
      searchMatchNb := searchMatchNb + 1;
      if forwardIp > mflimitPlusOne {
        TableLater(c, table[..], ip, |c.src|);
        return false, ip, 0;
      }
      forwardH := HashPosition(c.src, forwardIp, c.table);
      PutPosition(c, table, h, ip, ip + 1);
      TableLater(c, table[..], ip + 1, forwardIp);
      TableLater(c, table[..], ip + 1, |c.src|);
      found, mpos := Candidate(c, h, e, ip);
      if found { return; }
    }
  }

  /** The probe right after a match. */
  method TestNext(c: Call, table: array<nat>, ip: nat) returns (again: bool, mpos: nat)
    requires 2 <= ip && ip + MFLIMIT <= |c.src| && TableOk(c, table[..], ip)
    modifies table
    ensures TableOk(c, table[..], ip + 1)
    ensures again ==> Found(c.src, ip, mpos)
  {
    PutPosition(c, table, HashPosition(c.src, ip - 2, c.table), ip - 2, ip);
    var h := HashPosition(c.src, ip, c.table);
    var e := table[h];
    assert EntryOk(c, h, table[..][h], ip);
    PutPosition(c, table, h, ip, ip + 1);
    again, mpos := Candidate(c, h, e, ip);
  }


  // ---------------------------------------------------------------- extending a match

  predicate SameAt(src: seq<byte>, k: nat, offset: nat)
    requires offset <= k < |src|
  {
    src[k] == src[k - offset]
  }

  /** The bytes of `src[from..upto]` are a copy at distance `offset`. */
  ghost predicate Matches(src: seq<byte>, from: nat, upto: nat, offset: nat)
  {
    0 < offset <= from <= upto <= |src| && forall k :: from <= k < upto ==> SameAt(src, k, offset)
  }

  lemma MatchesCopies(src: seq<byte>, from: nat, upto: nat, offset: nat)
    requires Matches(src, from, upto, offset)
    ensures CopiesBack(src, from, upto, offset)
  {
    assert forall k :: from <= k < upto && SameAt(src, k, offset) ==> src[k] == src[k - offset];
  }

  /** Catch up: extends a match backwards to the end of the previous one. */
  method CatchUp(src: seq<byte>, ip0: nat, mpos0: nat, anchor: nat) returns (ip: nat, mpos: nat)
    requires anchor < ip0 && Found(src, ip0, mpos0)
    ensures anchor <= ip <= ip0 && mpos < ip && ip - mpos == ip0 - mpos0
    ensures Matches(src, ip, ip0 + MINMATCH, ip - mpos)
  {
    ip, mpos := ip0, mpos0;
    while ip > anchor && mpos > 0 && src[ip - 1] == src[mpos - 1]
      invariant anchor <= ip <= ip0 && mpos < ip && ip - mpos == ip0 - mpos0
      invariant Matches(src, ip, ip0 + MINMATCH, ip - mpos)
    {
      ip, mpos := ip - 1, mpos - 1;
    }
  }

  /** LZ4_NbCommonBytes on the difference of two words: the index of the first differing byte. */
  function CommonBytes(src: seq<byte>, p: nat, m: nat): (r: nat)
    requires m < p && p + 4 <= |src| && Read32(src, p) != Read32(src, m)
    ensures r < 4 && src[p + r] != src[m + r]
    ensures Matches(src, p, p + r, p - m)
  {
    if src[p] != src[m] then 0
    else if src[p + 1] != src[m + 1] then 1
    else if src[p + 2] != src[m + 2] then 2
    else 3
  }

  /** LZ4_count: the length of the longest common run from `p` and `m`, four bytes at a time. */
  method Count(src: seq<byte>, p: nat, m: nat, limit: nat) returns (r: nat)
    requires m < p <= limit <= |src|
    ensures p + r <= limit && Matches(src, p, p + r, p - m)
    ensures p + r == limit || src[p + r] != src[m + r]
  {
    var ip, mp := p, m;
    while ip < limit - 3
      invariant p <= ip <= limit && ip - mp == p - m
      invariant Matches(src, p, ip, p - m)
    {
      if Read32(src, mp) != Read32(src, ip) {
        return ip + CommonBytes(src, ip, mp) - p;
      }
      Read32Equal(src, mp, ip);
      ip, mp := ip + 4, mp + 4;
    }
    if ip < limit - 1 && src[mp] == src[ip] && src[mp + 1] == src[ip + 1] { ip, mp := ip + 2, mp + 2; }
    if ip < limit && src[mp] == src[ip] { ip, mp := ip + 1, mp + 1; }
    r := ip - p;
  }
}
