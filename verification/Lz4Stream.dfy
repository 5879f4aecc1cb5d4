/**
 The compression state of lz4.c and its public entry points without dictionaries:
 `LZ4_initStream`, `LZ4_resetStream_fast`, `LZ4_compress_fast_extState`, its fastReset
 variant and `LZ4_compress_destSize_extState`, on a 32-bit target.  A state may be reused
 for any run of calls: what one call leaves in the hash table never becomes a match of
 another, so every block decodes to its own source.
 */
module Lz4Stream {
  import opened Basics
  import opened Lz4Format
  import opened Lz4Decode
  import opened Lz4Emit
  import opened Lz4Search
  import opened Lz4Compress

  const KB := 1024
  const GB := 0x4000_0000
  const ACCELERATION_MAX := 65537

  /** The largest factor that can be shifted by LZ4_skipTrigger in an int. */
  const ACCELERATION_LIMIT := 0x1FF_FFFF

  /** What each kind of table may hold when no call is running. */
  ghost predicate AtRest(t: seq<nat>, kind: TableType, offset: nat)
  {
    match kind
    case Cleared => offset == 0 && forall h :: 0 <= h < |t| ==> t[h] == 0
    case ByPtr => true
    case ByU32 => forall h :: 0 <= h < |t| ==> t[h] == 0 || t[h] < offset
    case ByU16 => forall h :: 0 <= h < |t| ==> t[h] == 0 || t[h] < offset
  }

  /** What a call of the given kind may start from: nothing in the table can be taken for its own. */
  ghost predicate Prepared(t: seq<nat>, kind: TableType, offset: nat, n: nat)
  {
    match kind
    case Cleared => false
    case ByPtr => offset == 0 && forall h :: 0 <= h < |t| ==> t[h] == 0
    case ByU32 => forall h :: 0 <= h < |t| ==> t[h] == 0 || t[h] + DISTANCE_MAX < offset
    case ByU16 => (offset == 0 || offset + n < 0xFFFF) && forall h :: 0 <= h < |t| ==> t[h] == 0 || t[h] < offset
  }

  /** The acceleration that is used for a requested one. */
  function Clamp(acceleration: int): (r: nat)
    ensures 1 <= r <= ACCELERATION_MAX && (1 <= acceleration <= ACCELERATION_MAX ==> r == acceleration)
  {
    if acceleration < 1 then 1 else if acceleration > ACCELERATION_MAX then ACCELERATION_MAX else acceleration
  }

  /** The table that the size and the address of a source call for. */
  function TableFor(n: nat, address: nat): (r: TableType)
    ensures !r.Cleared? && (r.ByU16? <==> n < LIMIT_64K) && (r.ByPtr? ==> address > DISTANCE_MAX)
  {
    if n < LIMIT_64K then ByU16 else if address > DISTANCE_MAX then ByPtr else ByU32
  }

  /** A prepared table is clean for the call, with the base that its kind calls for. */
  lemma PreparedIsClean(t: seq<nat>, c: Params, offset: nat)
    requires ValidCall(c) && |t| == TABLE_SIZE && Prepared(t, c.table, offset, |c.src|)
    requires c.base == if c.table.ByPtr? then c.base else offset
    requires c.table.ByPtr? ==> c.base > DISTANCE_MAX
    requires c.table.ByU32? ==> offset == 0 || offset > DISTANCE_MAX
    requires c.table.ByU16? && offset > 0 ==> c.dictSmall
    requires c.table.ByU16? && offset == 0 ==> forall h :: 0 <= h < |t| ==> t[h] == 0
    ensures TableOk(c, t, 1)
  {
  }

  class Stream {
    const hashTable: array<nat>
    var currentOffset: nat
    var tableType: TableType
    var dictSize: nat

    ghost predicate Valid()
      reads this, hashTable
    {
      hashTable.Length == TABLE_SIZE && currentOffset <= MAX_INPUT_SIZE && AtRest(hashTable[..], tableType, currentOffset)
    }

    /** A zeroed state. */
    constructor ()
      ensures Valid() && fresh(hashTable) && currentOffset == 0 && tableType == Cleared
    {
      hashTable := new nat[TABLE_SIZE](_ => 0);
      currentOffset, tableType, dictSize := 0, Cleared, 0;
    }

    /** MEM_INIT of the hash table. */
    method ClearTable()
      requires hashTable.Length == TABLE_SIZE
      modifies hashTable
      ensures forall h :: 0 <= h < TABLE_SIZE ==> hashTable[h] == 0
    {
      forall h | 0 <= h < TABLE_SIZE { hashTable[h] := 0; }
    }

    /** LZ4_initStream on an existing state. */
    method Reinit()
      requires hashTable.Length == TABLE_SIZE
      modifies this, hashTable
      ensures Valid() && currentOffset == 0 && tableType == Cleared && dictSize == 0
    {
      ClearTable();
      currentOffset, tableType, dictSize := 0, Cleared, 0;
    }

    /** LZ4_prepareTable: keeps the table where that is safe, and clears it where it is not. */
    method PrepareTable(n: nat, kind: TableType)
      requires Valid() && !kind.Cleared? && n <= INT_MAX
      modifies this, hashTable
      ensures hashTable.Length == TABLE_SIZE && currentOffset <= MAX_INPUT_SIZE && dictSize == 0
      ensures Valid() && Prepared(hashTable[..], kind, currentOffset, n)
      ensures kind.ByU32? ==> currentOffset == 0 || currentOffset > DISTANCE_MAX
      ensures n >= 4 * KB ==> currentOffset == 0
      ensures currentOffset == 0 ==> forall h :: 0 <= h < TABLE_SIZE ==> hashTable[h] == 0
    {
      if !tableType.Cleared? {
        if tableType != kind || (kind.ByU16? && currentOffset + n >= 0xFFFF) || (kind.ByU32? && currentOffset > GB)
           || kind.ByPtr? || n >= 4 * KB
        {
          ClearTable();
          currentOffset := 0;
          tableType := Cleared;
        }
      }
      if currentOffset != 0 && kind.ByU32? {
        currentOffset := currentOffset + 64 * KB;
      }
      dictSize := 0;
    }

    /** LZ4_resetStream_fast. */
    method ResetFast()
      requires Valid()
      modifies this, hashTable
      ensures Valid()
    {
      PrepareTable(0, ByU32);
    }

    /** LZ4_compress_generic, on a prepared table. */
    method CompressGeneric(src: seq<byte>, address: nat, dst: array<byte>, mode: Directive, kind: TableType, dictSmall: bool, acceleration: nat)
      returns (r: nat, consumed: nat)
      requires Valid() && |src| <= INT_MAX && address + |src| <= WORD && 1 <= acceleration && !kind.Cleared?
      requires dictSize == 0 && Prepared(hashTable[..], kind, currentOffset, |src|)
      requires kind == TableFor(|src|, address) && (kind.ByU16? || currentOffset == 0)
      requires currentOffset == 0 ==> forall h :: 0 <= h < TABLE_SIZE ==> hashTable[h] == 0
      requires dictSmall <==> kind.ByU16? && currentOffset > 0
      requires mode.NotLimited? ==> CompressBound(|src|) <= dst.Length
      requires mode.FillOutput? ==> currentOffset == 0
      modifies this, hashTable, dst
      ensures Valid()
      ensures r > 0 ==> r <= dst.Length && consumed <= |src| && IsBlockFor(dst[..r], src[..consumed])
      ensures r == 0 ==> |src| > MAX_INPUT_SIZE || (mode.LimitedOutput? && 0 < |src|) || (dst.Length == 0 && !mode.NotLimited?)
      ensures !mode.FillOutput? ==> consumed == |src|
      ensures r > 0 && mode.FillOutput? && consumed < |src| ==> dst.Length <= consumed + consumed / 255 + 2
      ensures mode.NotLimited? && |src| <= MAX_INPUT_SIZE ==> r <= CompressBound(|src|)
    {
      if |src| > MAX_INPUT_SIZE { return 0, |src|; }
      if |src| == 0 {
        if !mode.NotLimited? && dst.Length == 0 { return 0, 0; }
        dst[0] := 0;
        EmptyBlockIs(dst[..1], src);
        return 1, 0;
      }
      if mode.FillOutput? && dst.Length < 1 { return 0, 0; }
      var base := if kind.ByPtr? then address else currentOffset;
      var c := Params(src, base, kind, dictSmall, mode, dst.Length, acceleration);
      PreparedIsClean(hashTable[..], c, currentOffset);
      dictSize := dictSize + |src|;
      currentOffset := currentOffset + |src|;
      tableType := kind;
      r, consumed := CompressBlock(c, hashTable, dst);
      Rests(hashTable[..], c, currentOffset);
    }

    /**
     LZ4_compress_fast_extState_fastReset: compresses with whatever state earlier calls
     have left, and leaves the state fit for another call.
     */
    method CompressFastReset(src: seq<byte>, address: nat, dst: array<byte>, acceleration: int) returns (r: nat)
      requires Valid() && |src| <= INT_MAX && address + |src| <= WORD
      modifies this, hashTable, dst
      ensures Valid()
      ensures r > 0 ==> r <= dst.Length && IsBlockFor(dst[..r], src)
      ensures r == 0 ==> |src| > MAX_INPUT_SIZE || dst.Length < CompressBound(|src|)
      ensures |src| <= MAX_INPUT_SIZE ==> r <= CompressBound(|src|) || dst.Length < CompressBound(|src|)
    {
      var kind := TableFor(|src|, address);
      PrepareTable(|src|, kind);
      var mode := if dst.Length >= CompressBound(|src|) then NotLimited else LimitedOutput;
      var dictSmall := kind.ByU16? && currentOffset != 0;
      var consumed;
      r, consumed := CompressGeneric(src, address, dst, mode, kind, dictSmall, Clamp(acceleration));
      assert src[..|src|] == src;
    }

    /** LZ4_compress_fast_extState: the same from a freshly initialised state. */
    method CompressFastExtState(src: seq<byte>, address: nat, dst: array<byte>, acceleration: int) returns (r: nat)
      requires hashTable.Length == TABLE_SIZE && |src| <= INT_MAX && address + |src| <= WORD
      modifies this, hashTable, dst
      ensures Valid()
      ensures r > 0 ==> r <= dst.Length && IsBlockFor(dst[..r], src)
      ensures r == 0 ==> |src| > MAX_INPUT_SIZE || dst.Length < CompressBound(|src|)
      ensures |src| <= MAX_INPUT_SIZE ==> r <= CompressBound(|src|) || dst.Length < CompressBound(|src|)
    {
      Reinit();
      var kind := TableFor(|src|, address);
      var mode := if dst.Length >= CompressBound(|src|) then NotLimited else LimitedOutput;
      var consumed;
      r, consumed := CompressGeneric(src, address, dst, mode, kind, false, Clamp(acceleration));
      assert src[..|src|] == src;
    }

    /**
     LZ4_compress_destSize_extState: fills `dst` as far as it can, and says how much of the
     source that took.  The state is initialised again on exit.
     */
    method CompressDestSize(src: seq<byte>, address: nat, dst: array<byte>, acceleration: int) returns (r: nat, consumed: nat)
      requires hashTable.Length == TABLE_SIZE && |src| <= INT_MAX && address + |src| <= WORD
      requires 1 <= acceleration <= ACCELERATION_LIMIT || dst.Length >= CompressBound(|src|)
      modifies this, hashTable, dst
      ensures Valid()
      ensures r > 0 ==> r <= dst.Length && consumed <= |src| && IsBlockFor(dst[..r], src[..consumed])
      ensures r == 0 ==> |src| > MAX_INPUT_SIZE || dst.Length == 0
      ensures r > 0 && dst.Length >= CompressBound(|src|) ==> consumed == |src|
      ensures r > 0 && consumed < |src| ==> dst.Length <= consumed + consumed / 255 + 2
    {
      Reinit();
      if dst.Length >= CompressBound(|src|) {
        r := CompressFastExtState(src, address, dst, acceleration);
        consumed := |src|;
        assert src[..|src|] == src;
      } else {
        r, consumed := CompressGeneric(src, address, dst, FillOutput, TableFor(|src|, address), false, acceleration);
      }
      ghost var filled := dst[..];
      Reinit();
      assert dst[..] == filled && forall k: nat :: k <= dst.Length ==> dst[..k] == filled[..k];
    }
  }

  lemma Rests(t: seq<nat>, c: Call, offset: nat)
    requires TableOk(c, t, |c.src|) && (!c.table.ByPtr? ==> offset == c.base + |c.src|)
    ensures AtRest(t, c.table, offset)
  {
    assert forall h :: 0 <= h < |t| && EntryOk(c, h, t[h], |c.src|) ==> t[h] < c.base + |c.src|;
  }

  lemma EmptyBlockIs(block: seq<byte>, src: seq<byte>)
    requires block == [0] && src == []
    ensures IsBlockFor(block, src[..0])
  {
    var seqs: seq<Sequence>, last: seq<byte> := [], [];
    EmptyBlock(seqs, last);
    assert ValidBlock(seqs, last);
    assert block == EncodeBlock(seqs, last) && src[..0] == Expand(seqs) + last;
  }

  // ---------------------------------------------------------------- round trips

  /** One compression of a run: source, its address, the room for the block, the acceleration. */
  datatype Request = Request(src: seq<byte>, address: nat, capacity: nat, acceleration: int, resetBefore: bool)

  predicate ValidRequest(q: Request)
  {
    |q.src| <= INT_MAX && q.address + |q.src| <= WORD && q.capacity <= INT_MAX
  }

  /**
   Any run of calls that reuse one state, with fast resets in between wherever one likes:
   every block decodes to its own source, at every capacity that can hold it.
   */
  method CompressRun(requests: seq<Request>) returns (blocks: seq<Option<seq<byte>>>)
    requires forall q <- requests :: ValidRequest(q)
    ensures |blocks| == |requests|
    ensures forall i :: 0 <= i < |requests| && blocks[i].Some? ==>
              && |blocks[i].value| <= requests[i].capacity
              && forall cap: nat :: |requests[i].src| <= cap ==> Decode(blocks[i].value, cap) == Some(requests[i].src)
    ensures forall i :: 0 <= i < |requests| && blocks[i].None? ==>
              |requests[i].src| > MAX_INPUT_SIZE || requests[i].capacity < CompressBound(|requests[i].src|)
  {
    blocks := [];
    var state := new Stream();
    while |blocks| < |requests|
      invariant |blocks| <= |requests| && state.Valid() && fresh(state) && fresh(state.hashTable)
      invariant forall i :: 0 <= i < |blocks| && blocks[i].Some? ==>
                  && |blocks[i].value| <= requests[i].capacity
                  && forall cap: nat :: |requests[i].src| <= cap ==> Decode(blocks[i].value, cap) == Some(requests[i].src)
      invariant forall i :: 0 <= i < |blocks| && blocks[i].None? ==>
                  |requests[i].src| > MAX_INPUT_SIZE || requests[i].capacity < CompressBound(|requests[i].src|)
    {
      var q := requests[|blocks|];
      var block := CompressOne(state, q);
      blocks := blocks + [block];
    }
  }

  method CompressOne(state: Stream, q: Request) returns (block: Option<seq<byte>>)
    requires state.Valid() && ValidRequest(q)
    modifies state, state.hashTable
    ensures state.Valid()
    ensures block.Some? ==> |block.value| <= q.capacity && forall cap: nat :: |q.src| <= cap ==> Decode(block.value, cap) == Some(q.src)
    ensures block.None? ==> |q.src| > MAX_INPUT_SIZE || q.capacity < CompressBound(|q.src|)
  {
    if q.resetBefore { state.ResetFast(); }
    var dst := new byte[q.capacity];
    var r := state.CompressFastReset(q.src, q.address, dst, q.acceleration);
    if r == 0 { return None; }
    block := Some(dst[..r]);
    forall cap: nat | |q.src| <= cap
      ensures Decode(block.value, cap) == Some(q.src)
    {
      BlockDecodes(dst[..r], q.src, cap);
    }
  }

  /** Compress, then decompress into a buffer of any sufficient size: the source comes back. */
  method RoundTrip(src: seq<byte>, address: nat, capacity: nat, room: nat, acceleration: int, at: Place) returns (out: Option<seq<byte>>)
    requires |src| <= room <= INT_MAX && address + |src| <= WORD && capacity <= INT_MAX && Clear(at, capacity, room)
    ensures out.Some? ==> out.value == src
    ensures out.None? ==> |src| > MAX_INPUT_SIZE || capacity < CompressBound(|src|)
  {
    var block := CompressFast(src, address, capacity, acceleration);
    if block.None? { return None; }
    var dst := new byte[room];
    assert Decode(block.value, room) == Some(src);
    DecodeInside(at.dest, block.value, room);
    var r := DecompressSafe(block.value, dst, at);
    out := Some(dst[..r]);
  }

  /** LZ4_compress_fast. */
  method CompressFast(src: seq<byte>, address: nat, capacity: nat, acceleration: int) returns (block: Option<seq<byte>>)
    requires |src| <= INT_MAX && address + |src| <= WORD && capacity <= INT_MAX
    ensures block.Some? ==> |block.value| <= capacity && forall cap: nat :: |src| <= cap ==> Decode(block.value, cap) == Some(src)
    ensures block.None? ==> |src| > MAX_INPUT_SIZE || capacity < CompressBound(|src|)
  {
    var state := new Stream();
    var dst := new byte[capacity];
    var r := state.CompressFastExtState(src, address, dst, acceleration);
    if r == 0 { return None; }
    block := Some(dst[..r]);
    forall cap: nat | |src| <= cap
      ensures Decode(block.value, cap) == Some(src)
    {
      BlockDecodes(dst[..r], src, cap);
    }
  }

  /** Fill mode: the block never exceeds the target and decodes to exactly the consumed prefix. */
  method FillRoundTrip(src: seq<byte>, address: nat, target: nat, room: nat, at: Place) returns (r: nat, consumed: nat, out: seq<byte>)
    requires |src| <= room <= INT_MAX && address + |src| <= WORD && target <= INT_MAX && Clear(at, target, room)
    ensures r <= target
    ensures r > 0 ==> consumed <= |src| && out == src[..consumed]
    ensures r > 0 && consumed < |src| ==> target <= consumed + consumed / 255 + 2
    ensures r == 0 ==> |src| > MAX_INPUT_SIZE || target == 0
  {
    var state := new Stream();
    var block := new byte[target];
    r, consumed := state.CompressDestSize(src, address, block, 1);
    out := [];
    if r > 0 {
      var dst := new byte[room];
      BlockDecodes(block[..r], src[..consumed], room);
      DecodeInside(at.dest, block[..r], room);
      var n := DecompressSafe(block[..r], dst, at);
      out := dst[..n];
    }
  }
}
