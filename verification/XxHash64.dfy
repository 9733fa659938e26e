/** XXH64: the one-shot function with its unrolled tail, and the buffered streaming state. A digest
    depends only on the bytes fed in, not on how they were cut. */
module XxHash64 {
  import opened Lz4Block
  import opened XxChunks

  // Multiplication by the primes.

  function Times1(x: bv64): bv64 { x * 11400714785074694791 }
  function Times2(x: bv64): bv64 { x * 14029467366897019727 }
  function Times3(x: bv64): bv64 { x * 1609587929392839161 }
  function Times5(x: bv64): bv64 { x * 2870177450012600261 }

  const PRIME64_1: bv64 := Times1(1)
  const PRIME64_2: bv64 := Times2(1)
  const PRIME64_3: bv64 := Times3(1)
  const PRIME64_4: bv64 := 9650029242287828579
  const PRIME64_5: bv64 := Times5(1)

  function Sum(a: bv64, b: bv64): bv64 { a + b }
  function Xor(a: bv64, b: bv64): bv64 { a ^ b }

  function Rotl64(x: bv64, r: bv64): bv64
    requires 0 < r < 64
  {
    (x << r) | (x >> (64 - r))
  }

  function Widen(b: byte): bv64 { b as bv64 }

  function Join32(a: bv64, b: bv64, c: bv64, d: bv64): bv64 {
    a | (b << 8) | (c << 16) | (d << 24)
  }

  function LittleEndian32(a: byte, b: byte, c: byte, d: byte): bv64 {
    Join32(Widen(a), Widen(b), Widen(c), Widen(d))
  }

  /** Four bytes, widened. */
  function ReadLE32(s: seq<byte>, p: nat): bv64
    requires p + 4 <= |s|
  {
    LittleEndian32(s[p], s[p + 1], s[p + 2], s[p + 3])
  }

  function Join64(low: bv64, high: bv64): bv64 { low | (high << 32) }

  function ReadLE64(s: seq<byte>, p: nat): bv64
    requires p + 8 <= |s|
  {
    Join64(LittleEndian32(s[p], s[p + 1], s[p + 2], s[p + 3]), LittleEndian32(s[p + 4], s[p + 5], s[p + 6], s[p + 7]))
  }

  function Round64(acc: bv64, input: bv64): bv64 {
    Times1(Rotl64(Sum(acc, Times2(input)), 31))
  }

  function MergeRound64(acc: bv64, val: bv64): bv64 {
    Sum(Times1(Xor(acc, Round64(0, val))), PRIME64_4)
  }

  function Shift33(h: bv64): bv64 { h ^ (h >> 33) }
  function Shift29(h: bv64): bv64 { h ^ (h >> 29) }
  function Shift32(h: bv64): bv64 { h ^ (h >> 32) }

  function Avalanche64(h: bv64): bv64 {
    Shift32(Times3(Shift29(Times2(Shift33(h)))))
  }

  datatype Lanes64 = Lanes64(v1: bv64, v2: bv64, v3: bv64, v4: bv64)

  function Start64(seed: bv64): Lanes64 {
    Lanes64(seed + PRIME64_1 + PRIME64_2, seed + PRIME64_2, seed + 0, seed - PRIME64_1)
  }

  /** One stripe of 32 bytes. */
  function Stripe64(v: Lanes64, s: seq<byte>, p: nat): Lanes64
    requires p + 32 <= |s|
  {
    Lanes64(Round64(v.v1, ReadLE64(s, p)), Round64(v.v2, ReadLE64(s, p + 8)),
            Round64(v.v3, ReadLE64(s, p + 16)), Round64(v.v4, ReadLE64(s, p + 24)))
  }

  function Converge64(v: Lanes64): bv64 {
    var h := Sum(Sum(Sum(Rotl64(v.v1, 1), Rotl64(v.v2, 7)), Rotl64(v.v3, 12)), Rotl64(v.v4, 18));
    MergeRound64(MergeRound64(MergeRound64(MergeRound64(h, v.v1), v.v2), v.v3), v.v4)
  }

  function Mix8(h: bv64, w: bv64): bv64 {
    Sum(Times1(Rotl64(Xor(h, Round64(0, w)), 27)), PRIME64_4)
  }

  function Mix4(h: bv64, w: bv64): bv64 {
    Sum(Times2(Rotl64(Xor(h, Times1(w)), 23)), PRIME64_3)
  }

  function Mix1(h: bv64, b: byte): bv64 {
    Times1(Rotl64(Xor(h, Times5(Widen(b))), 11))
  }

  function Small64(seed: bv64): bv64 {
    seed + PRIME64_5
  }

  function Word64(n: nat): bv64
    requires n < 0x1_0000_0000_0000_0000
  {
    n as bv64
  }

  function AddTruncated64(h: bv64, n: nat): bv64
    requires n < 0x1_0000_0000_0000_0000
  {
    Sum(h, Word64(n))
  }

  /** The length is added modulo 2^64. */
  function AddLength64(h: bv64, n: nat): bv64 {
    AddTruncated64(h, n % 0x1_0000_0000_0000_0000)
  }

  // The reference: all whole stripes, the length, then the tail by words and bytes.

  function Stripes64(v: Lanes64, s: seq<byte>): Lanes64
    requires |s| % 32 == 0
  {
    if s == [] then v else Stripe64(Stripes64(v, s[..|s| - 32]), s, |s| - 32)
  }

  function Tail64(h: bv64, s: seq<byte>, p: nat): bv64
    requires p <= |s|
    decreases |s| - p
  {
    if p + 8 <= |s| then Tail64(Mix8(h, ReadLE64(s, p)), s, p + 8)
    else if p + 4 <= |s| then Tail64(Mix4(h, ReadLE32(s, p)), s, p + 4)
    else if p < |s| then Tail64(Mix1(h, s[p]), s, p + 1)
    else h
  }

  /** Bytes in whole stripes of 32. */
  function Whole32(n: nat): (r: nat)
    ensures r <= n && n - r == n % 32 && r % 32 == 0
  {
    n - n % 32
  }

  function Hash64(seed: bv64, s: seq<byte>): bv64 {
    var k := Whole32(|s|);
    var h := if |s| >= 32 then Converge64(Stripes64(Start64(seed), s[..k])) else Small64(seed);
    Avalanche64(Tail64(AddLength64(h, |s|), s[k..], 0))
  }

  /** XXH64_finalize: the switch over the number of bytes left, eight groups of fall-through cases. */
  method Finalize64(h0: bv64, s: seq<byte>, p0: nat, len: nat) returns (r: bv64)
    requires p0 + len % 32 == |s|
    ensures r == Avalanche64(Tail64(h0, s, p0))
  {
    hide Mix8, Mix4, Mix1, ReadLE32, ReadLE64, Avalanche64, Tail64;
    var n := len % 32;
    var h, p := Words64(h0, s, p0, n / 8);
    if n == 8 || n == 16 || n == 24 {
      r := Avalanche64(h);
    } else if n == 4 || n == 12 || n == 20 || n == 28 {
      h, p := Half64(h, s, p);
      r := Avalanche64(h);
    } else if n == 9 || n == 17 || n == 25 {
      h, p := Bytes64(h, s, p, 1);
      r := Avalanche64(h);
    } else if n == 5 || n == 13 || n == 21 || n == 29 {
      h, p := Half64(h, s, p);
      h, p := Bytes64(h, s, p, 1);
      r := Avalanche64(h);
    } else if n == 10 || n == 18 || n == 26 {
      h, p := Bytes64(h, s, p, 2);
      r := Avalanche64(h);
    } else if n == 6 || n == 14 || n == 22 || n == 30 {
      h, p := Half64(h, s, p);
      h, p := Bytes64(h, s, p, 2);
      r := Avalanche64(h);
    } else if n == 11 || n == 19 || n == 27 {
      h, p := Bytes64(h, s, p, 3);
      r := Avalanche64(h);
    } else {
      if n % 8 == 7 {
        h, p := Half64(h, s, p);
      }
      h, p := Bytes64(h, s, p, n % 4);
      r := Avalanche64(h);
    }
    TailDone64(h, s);
  }

  lemma TailDone64(h: bv64, s: seq<byte>)
    ensures Tail64(h, s, |s|) == h
  {
  }

  /** The fall-through over PROCESS8_64: n of them, at most three. */
  method Words64(h0: bv64, s: seq<byte>, p0: nat, n: nat) returns (h: bv64, p: nat)
    requires n <= 3 && p0 + 8 * n <= |s|
    ensures p == p0 + 8 * n && Tail64(h, s, p) == Tail64(h0, s, p0)
  {
    hide Mix8, Mix4, Mix1, ReadLE32, ReadLE64;
    h, p := h0, p0;
    if n == 3 {
      h, p := Mix8(h, ReadLE64(s, p)), p + 8;
    }
    assert Tail64(h, s, p) == Tail64(h0, s, p0);
    if n >= 2 {
      h, p := Mix8(h, ReadLE64(s, p)), p + 8;
    }
    assert Tail64(h, s, p) == Tail64(h0, s, p0);
    if n >= 1 {
      h, p := Mix8(h, ReadLE64(s, p)), p + 8;
    }
  }

  /** PROCESS4_64 */
  method Half64(h0: bv64, s: seq<byte>, p0: nat) returns (h: bv64, p: nat)
    requires p0 + 4 <= |s| < p0 + 8
    ensures p == p0 + 4 && Tail64(h, s, p) == Tail64(h0, s, p0)
  {
    hide Mix8, Mix4, Mix1, ReadLE32, ReadLE64;
    h, p := Mix4(h0, ReadLE32(s, p0)), p0 + 4;
  }

  /** The fall-through over PROCESS1_64. */
  method Bytes64(h0: bv64, s: seq<byte>, p0: nat, n: nat) returns (h: bv64, p: nat)
    requires n <= 3 && p0 + n == |s|
    ensures p == |s| && Tail64(h, s, p) == Tail64(h0, s, p0)
  {
    hide Mix8, Mix4, Mix1, ReadLE32, ReadLE64;
    h, p := h0, p0;
    if n == 3 {
      h, p := Mix1(h, s[p]), p + 1;
    }
    assert Tail64(h, s, p) == Tail64(h0, s, p0);
    if n >= 2 {
      h, p := Mix1(h, s[p]), p + 1;
    }
    assert Tail64(h, s, p) == Tail64(h0, s, p0);
    if n >= 1 {
      h, p := Mix1(h, s[p]), p + 1;
    }
  }

  lemma StripesStep64(v: Lanes64, s: seq<byte>, p: nat)
    requires p % 32 == 0 && p + 32 <= |s|
    ensures Stripes64(v, s[..p + 32]) == Stripe64(Stripes64(v, s[..p]), s, p)
  {
    hide Round64, ReadLE64;
    var t := s[..p + 32];
    assert t[..p] == s[..p];
    assert Stripe64(Stripes64(v, s[..p]), t, p) == Stripe64(Stripes64(v, s[..p]), s, p) by {
      ReadPrefix64(s, t, p);
      ReadPrefix64(s, t, p + 8);
      ReadPrefix64(s, t, p + 16);
      ReadPrefix64(s, t, p + 24);
    }
  }

  lemma ReadPrefix64(s: seq<byte>, t: seq<byte>, p: nat)
    requires p + 8 <= |t| <= |s| && t == s[..|t|]
    ensures ReadLE64(t, p) == ReadLE64(s, p)
  {
    hide LittleEndian32, Join64;
  }

  /** The loop over whole stripes. */
  method ConsumeStripes64(input: seq<byte>, seed: bv64) returns (v: Lanes64, p: nat)
    requires |input| >= 32
    ensures p == Whole32(|input|) && v == Stripes64(Start64(seed), input[..p])
  {
    hide Stripe64, Start64;
    p, v := 0, Start64(seed);
    var limit := |input| - 31;
    assert input[..0] == [];
    while true
      invariant p % 32 == 0 && p + 32 <= |input| && v == Stripes64(Start64(seed), input[..p])
      decreases |input| - p
    {
      StripesStep64(Start64(seed), input, p);
      v := Stripe64(v, input, p);
      p := p + 32;
      if p >= limit {
        break;
      }
    }
  }

  /** XXH64 in one shot. */
  method XXH64(input: seq<byte>, seed: bv64) returns (r: bv64)
    ensures r == Hash64(seed, input)
  {
    hide Avalanche64, Converge64, Stripes64, Tail64, AddLength64, Small64;
    var p, h64 := 0, Small64(seed);
    if |input| >= 32 {
      var v;
      v, p := ConsumeStripes64(input, seed);
      h64 := Converge64(v);
    }
    h64 := AddLength64(h64, |input|);
    TailSlice64(h64, input, p, 0);
    r := Finalize64(h64, input, p, |input|);
  }

  /** The tail read in place is the tail cut off. */
  lemma {:induction false} TailSlice64(h: bv64, s: seq<byte>, k: nat, p: nat)
    requires k + p <= |s|
    ensures Tail64(h, s, k + p) == Tail64(h, s[k..], p)
    decreases |s| - p
  {
    hide Mix8, Mix4, Mix1, ReadLE32, ReadLE64;
    if k + p + 8 <= |s| {
      SliceRead64(s, k, p);
      TailSlice64(Mix8(h, ReadLE64(s, k + p)), s, k, p + 8);
    } else if k + p + 4 <= |s| {
      SliceRead32(s, k, p);
      TailSlice64(Mix4(h, ReadLE32(s, k + p)), s, k, p + 4);
    } else if k + p < |s| {
      TailSlice64(Mix1(h, s[k + p]), s, k, p + 1);
    }
  }

  lemma SliceRead32(s: seq<byte>, k: nat, p: nat)
    requires k + p + 4 <= |s|
    ensures ReadLE32(s, k + p) == ReadLE32(s[k..], p)
  {
    hide LittleEndian32;
  }

  lemma SliceRead64(s: seq<byte>, k: nat, p: nat)
    requires k + p + 8 <= |s|
    ensures ReadLE64(s, k + p) == ReadLE64(s[k..], p)
  {
    hide LittleEndian32, Join64;
  }

  // --------------------------------------------------------------- streaming

  /** XXH64_state_t. */
  class State64 {
    var totalLen: nat
    var v: Lanes64
    const mem64: array<byte>
    var memsize: nat

    ghost predicate Totals(n: nat)
      reads this
    {
      totalLen == n % 0x1_0000_0000_0000_0000
    }

    /** Whole stripes of data consumed, the rest buffered. */
    ghost predicate Buffered(seed: bv64, data: seq<byte>)
      reads this, mem64
    {
      && mem64.Length == 32 && memsize == |data| % 32
      && v == Stripes64(Start64(seed), data[..Whole32(|data|)])
      && mem64[..memsize] == data[Whole32(|data|)..]
    }

    /** The state after feeding in data. */
    ghost predicate Holds(seed: bv64, data: seq<byte>)
      reads this, mem64
    {
      Totals(|data|) && Buffered(seed, data)
    }

    /** The first k bytes of data are consumed, and so nothing is buffered. */
    ghost predicate Consumed(seed: bv64, data: seq<byte>, k: nat)
      reads this, mem64
    {
      mem64.Length == 32 && k <= |data| && k % 32 == 0 && v == Stripes64(Start64(seed), data[..k])
    }

    constructor ()
      ensures mem64.Length == 32 && fresh(mem64)
    {
      hide *;
      mem64 := new byte[32];
      totalLen, v, memsize := 0, Lanes64(0, 0, 0, 0), 0;
    }

    /** XXH64_reset. */
    method Reset(seed: bv64)
      requires mem64.Length == 32
      modifies this
      ensures Holds(seed, [])
    {
      hide Start64, Holds;
      totalLen, v, memsize := 0, Start64(seed), 0;
      HoldsNothing(seed);
    }

    lemma HoldsNothing(seed: bv64)
      requires mem64.Length == 32 && totalLen == 0 && v == Start64(seed) && memsize == 0
      ensures Holds(seed, [])
    {
      hide Start64;
    }

    /** XXH64_update: complete the buffered stripe, consume whole stripes, buffer the rest. */
    method Update(input: seq<byte>, ghost seed: bv64, ghost data: seq<byte>)
      requires Holds(seed, data)
      modifies this, mem64
      ensures Holds(seed, data + input)
    {
      hide Stripes64, Start64, Whole32;
      CountIn(|input|, |data|);
      if memsize + |input| < 32 {
        UpdateShort(input, seed, data);
      } else {
        UpdateLong(input, seed, data);
      }
    }

    method CountIn(len: nat, ghost n: nat)
      requires Totals(n)
      modifies `totalLen
      ensures Totals(n + len)
    {
      TotalAfter(n, len);
      totalLen := (totalLen + len) % 0x1_0000_0000_0000_0000;
    }

    method UpdateShort(input: seq<byte>, ghost seed: bv64, ghost data: seq<byte>)
      requires Buffered(seed, data) && memsize + |input| < 32
      modifies mem64, `memsize
      ensures Buffered(seed, data + input)
    {
      hide Stripes64, Start64;
      StripeAfter(|data|, |input|);
      BufferedMore(data, input);
      ghost var kept := mem64[..memsize];
      Fill(input, memsize, 0, |input|);
      var e := memsize + |input|;
      assert mem64[..e] == mem64[..memsize] + mem64[memsize..e];
      assert input[0..|input|] == input;
      memsize := e;
    }

    method UpdateLong(input: seq<byte>, ghost seed: bv64, ghost data: seq<byte>)
      requires Buffered(seed, data) && memsize + |input| >= 32
      modifies mem64, `memsize, `v
      ensures Buffered(seed, data + input)
    {
      hide Stripes64, Start64;
      var p := CompletePending(input, seed, data);
      p := ConsumeWhole(input, p, seed, data);
      Remainder(data, input, p);
      KeepRest(input, p);
    }

    /** What is left, less than a stripe. */
    method KeepRest(input: seq<byte>, p: nat)
      requires mem64.Length == 32 && memsize == 0 && p <= |input| && |input| - p < 32
      modifies mem64, `memsize
      ensures memsize == |input| - p && mem64[..memsize] == input[p..]
    {
      if p < |input| {
        Fill(input, 0, p, |input| - p);
        memsize := |input| - p;
      }
    }

    /** XXH_memcpy into the buffer. */
    method Fill(input: seq<byte>, at: nat, from: nat, n: nat)
      requires mem64.Length == 32 && at + n <= 32 && from + n <= |input|
      modifies mem64
      ensures mem64[..at] == old(mem64[..at])
      ensures mem64[at..at + n] == input[from..from + n]
    {
      hide *;
      forall i | 0 <= i < n {
        mem64[at + i] := input[from + i];
      }
    }

    /** Some data left from a previous update: fill the buffer up and consume it. */
    method CompletePending(input: seq<byte>, ghost seed: bv64, ghost data: seq<byte>) returns (p: nat)
      requires mem64.Length == 32 && memsize == |data| % 32 && memsize + |input| >= 32
      requires v == Stripes64(Start64(seed), data[..Whole32(|data|)]) && mem64[..memsize] == data[Whole32(|data|)..]
      modifies mem64, `v, `memsize
      ensures p <= |input| && memsize == 0 && Consumed(seed, data + input, |data| + p)
    {
      hide Stripes64, Start64, Stripe64;
      ghost var all, base := data + input, Whole32(|data|);
      assert all[..base] == data[..base];
      p := 0;
      if memsize > 0 {
        p := 32 - memsize;
        ghost var kept := mem64[..memsize];
        Fill(input, memsize, 0, p);
        assert mem64[..] == kept + input[0..p] == all[base..base + 32];
        StripesStep64(Start64(seed), all, base);
        StripeSlice64(Stripes64(Start64(seed), all[..base]), all, base, mem64[..]);
        v := Stripe64(v, mem64[..], 0);
        memsize := 0;
      }
    }

    /** The stripes that lie whole in the input. */
    method ConsumeWhole(input: seq<byte>, p0: nat, ghost seed: bv64, ghost data: seq<byte>) returns (p: nat)
      requires p0 <= |input| && Consumed(seed, data + input, |data| + p0)
      modifies `v
      ensures p0 <= p <= |input| && |input| - p < 32 && Consumed(seed, data + input, |data| + p)
    {
      hide Stripes64, Start64, Stripe64;
      ghost var all := data + input;
      p := p0;
      while p + 32 <= |input|
        invariant p0 <= p <= |input| && Consumed(seed, all, |data| + p)
      {
        ghost var c := |data| + p;
        StripesStep64(Start64(seed), all, c);
        SplitStripe64(v, all, c, input, p, data);
        v := Stripe64(v, input, p);
        p := p + 32;
      }
    }

    /** XXH64_digest. */
    method Digest(ghost seed: bv64, ghost data: seq<byte>) returns (r: bv64)
      requires Holds(seed, data) && |data| < 0x1_0000_0000_0000_0000
      ensures r == Hash64(seed, data)
    {
      hide Stripe64, Converge64, Small64, AddLength64, Avalanche64, Tail64;
      var h64 := if totalLen >= 32 then Converge64(v) else Small64(v.v3);
      if totalLen < 32 {
        assert data[..Whole32(|data|)] == [];
        SeedKept(seed);
      }
      AddLengthMod(h64, |data|);
      h64 := AddLength64(h64, totalLen);
      r := Finalize64(h64, mem64[..memsize], 0, totalLen);
    }
  }

  lemma SeedKept(seed: bv64)
    ensures Start64(seed).v3 == seed
  {
  }

  lemma AddLengthMod(h: bv64, n: nat)
    ensures AddLength64(h, n % 0x1_0000_0000_0000_0000) == AddLength64(h, n)
  {
    hide AddTruncated64;
  }

  lemma TotalAfter(n: nat, len: nat)
    ensures (n % 0x1_0000_0000_0000_0000 + len) % 0x1_0000_0000_0000_0000 == (n + len) % 0x1_0000_0000_0000_0000
  {
  }

  lemma StripeAfter(n: nat, len: nat)
    ensures n % 32 + len < 32 ==> (n + len) % 32 == n % 32 + len && Whole32(n + len) == Whole32(n)
  {
  }

  lemma BufferedMore(data: seq<byte>, input: seq<byte>)
    requires |data| % 32 + |input| < 32
    ensures (data + input)[Whole32(|data|)..] == data[Whole32(|data|)..] + input
    ensures (data + input)[..Whole32(|data|)] == data[..Whole32(|data|)]
  {
  }

  lemma Remainder(data: seq<byte>, input: seq<byte>, p: nat)
    requires p <= |input| && |input| - p < 32 && (|data| + p) % 32 == 0
    ensures Whole32(|data + input|) == |data| + p && |data + input| % 32 == |input| - p
    ensures (data + input)[|data| + p..] == input[p..]
  {
  }

  lemma StripeSlice64(v: Lanes64, s: seq<byte>, p: nat, t: seq<byte>)
    requires p + 32 <= |s| && t == s[p..p + 32]
    ensures Stripe64(v, t, 0) == Stripe64(v, s, p)
  {
    hide LittleEndian32, Join64, Round64;
  }

  lemma SplitStripe64(v: Lanes64, all: seq<byte>, c: nat, input: seq<byte>, p: nat, data: seq<byte>)
    requires all == data + input && c == |data| + p && p + 32 <= |input|
    ensures Stripe64(v, input, p) == Stripe64(v, all, c)
  {
    assert input[p..p + 32] == all[c..c + 32];
    StripeSlice64(v, all, c, all[c..c + 32]);
    StripeSlice64(v, input, p, input[p..p + 32]);
  }

  /** Reset, one update a chunk, digest: the one-shot hash of the concatenation, however it was cut. */
  method HashChunks64(chunks: seq<seq<byte>>, seed: bv64) returns (r: bv64)
    requires |Concat(chunks)| < 0x1_0000_0000_0000_0000
    ensures r == Hash64(seed, Concat(chunks))
  {
    hide *;
    assert Concat([]) == [] by { ConcatSteps(chunks, 0); }
    var state := new State64();
    state.Reset(seed);
    for i := 0 to |chunks|
      invariant fresh(state) && fresh(state.mem64) && state.Holds(seed, Concat(chunks[..i]))
    {
      ConcatSteps(chunks, i);
      state.Update(chunks[i], seed, Concat(chunks[..i]));
    }
    assert chunks[..|chunks|] == chunks;
    r := state.Digest(seed, Concat(chunks));
  }
}
