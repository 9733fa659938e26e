/** LZ4_compress_HC and its state, which survives from one input to the next. */
module Lz4Hc {
  import opened Lz4Block
  import opened Lz4Copy
  import opened Lz4Compress
  import opened Lz4HcMatch
  import opened Lz4HcLazy
  import opened Lz4HcOptimal

  const CLEVEL_DEFAULT := 9
  const CLEVEL_MAX := 12

  datatype Params = HashChain(nbSearches: nat) | OptimalParse(nbSearches: nat, targetLength: nat)

  function ClampLevel(level: int): (r: nat)
    ensures 1 <= r <= CLEVEL_MAX
  {
    if level < 1 then CLEVEL_DEFAULT else if level > CLEVEL_MAX then CLEVEL_MAX else level
  }

  function ParamsOf(level: nat): Params {
    if level <= 2 then HashChain(2)
    else if level == 3 then HashChain(4)
    else if level == 4 then HashChain(8)
    else if level == 5 then HashChain(16)
    else if level == 6 then HashChain(32)
    else if level == 7 then HashChain(64)
    else if level == 8 then HashChain(128)
    else if level == 9 then HashChain(256)
    else if level == 10 then OptimalParse(96, 64)
    else if level == 11 then OptimalParse(512, 128)
    else OptimalParse(16384, OPT_NUM)
  }

  class StreamHc {
    const tables: Tables

    /** What earlier calls may have left: anything after a failure, else positions of earlier inputs only. */
    ghost predicate Valid()
      reads this, tables, tables.hashTable, tables.chainTable
    {
      && tables.hashTable.Length == HC_HASH_SIZE && tables.chainTable.Length == HC_CHAIN_SIZE
      && tables.hashTable != tables.chainTable
      && (!tables.dirty ==>
            && tables.Shaped()
            && forall k | 0 <= k < HC_HASH_SIZE :: tables.hashTable[k] == 0 || tables.hashTable[k] < tables.lowLimit + tables.size)
    }

    constructor (tables0: Tables)
      requires tables0.hashTable.Length == HC_HASH_SIZE && tables0.chainTable.Length == HC_CHAIN_SIZE
      requires tables0.hashTable != tables0.chainTable && tables0.dirty
      ensures tables == tables0 && Valid()
    {
      tables := tables0;
    }

    /** LZ4_initStreamHC: all zero. */
    method Init()
      requires tables.hashTable.Length == HC_HASH_SIZE && tables.chainTable.Length == HC_CHAIN_SIZE
      requires tables.hashTable != tables.chainTable
      modifies tables, tables.hashTable, tables.chainTable
      ensures Valid() && !tables.dirty && tables.lowLimit == 0 && tables.size == 0
    {
      forall k | 0 <= k < HC_HASH_SIZE { tables.hashTable[k] := 0; }
      forall k | 0 <= k < HC_CHAIN_SIZE { tables.chainTable[k] := 0; }
      tables.lowLimit, tables.size, tables.nextToUpdate, tables.dirty := 0, 0, 0, false;
    }

    /** LZ4_resetStreamHC_fast, then LZ4HC_init_internal: a new start behind all older positions. */
    method Reset()
      requires Valid()
      modifies tables, tables.hashTable, tables.chainTable
      ensures tables.Ready(0) && tables.size == 0 && !tables.dirty
    {
      if tables.dirty {
        Init();
      }
      var start := tables.lowLimit + tables.size;
      if start > 0x4000_0000 {
        forall k | 0 <= k < HC_HASH_SIZE { tables.hashTable[k] := 0; }
        forall k | 0 <= k < HC_CHAIN_SIZE { tables.chainTable[k] := 65535; }
        start := 0;
      }
      start := start + 65536;
      tables.nextToUpdate, tables.lowLimit, tables.size := start, start, 0;
    }

    /** LZ4_compress_HC_extStateHC_fastReset, at any level: whatever earlier calls left in the
        state, a non-zero result decodes to this call's input. */
    method Compress(src: seq<byte>, dst: array<byte>, dest: nat, dstCapacity: nat, level: int, favorDecSpeed: bool, hash: seq<byte> -> nat)
      returns (r: nat)
      requires Valid() && dest + dstCapacity <= dst.Length
      requires tables.hashTable as object != dst as object && tables.chainTable as object != dst as object
      modifies tables, tables.hashTable, tables.chainTable, dst
      ensures Valid()
      ensures Untouched(dst[..], old(dst[..]), dest, dest + dstCapacity)
      ensures r <= dstCapacity
      ensures r > 0 ==> IsCompressed(Out(dst[..], dest, dest + r), src)
      ensures 0 < CompressBound(|src|) <= dstCapacity ==> 0 < r <= CompressBound(|src|)
      ensures r > 0 && AllSame(src) && (ClampLevel(level) < 10 || (|src| > OPT_NUM + 5 && !favorDecSpeed)) ==> r == RunSize(|src|)
      ensures AllSame(src) && |src| <= MAX_INPUT_SIZE && (ClampLevel(level) < 10 || (|src| > OPT_NUM + 5 && !favorDecSpeed)) ==>
        (r > 0 <==> RunSize(|src|) <= dstCapacity)
    {
      hide Untouched, IsCompressed, Out;
      Reset();
      UntouchedSame(dst[..], dest, dest + dstCapacity);
      if |src| > MAX_INPUT_SIZE {
        return 0;
      }
      var t := Target(dest, dest + dstCapacity, dstCapacity < CompressBound(|src|));
      match ParamsOf(ClampLevel(level)) {
        case HashChain(nbSearches) =>
          r := CompressHashChain(tables, src, dst, t, Effort(nbSearches, nbSearches > 128), hash);
        case OptimalParse(nbSearches, targetLength) =>
          r := CompressOptimal(tables, src, dst, t, Options(nbSearches, targetLength, ClampLevel(level) == CLEVEL_MAX, favorDecSpeed), hash);
      }
      tables.size := |src|;
      tables.dirty := r == 0;
    }
  }
}
