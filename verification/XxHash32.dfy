/** XXH32: the one-shot function with its unrolled tail, and the buffered streaming state. A digest
    depends only on the bytes fed in, not on how they were cut. */
module XxHash32 {
  import opened Lz4Block
  import opened XxChunks

  // Multiplication by the five primes.

  function Times1(x: bv32): bv32 { x * 2654435761 }
  function Times2(x: bv32): bv32 { x * 2246822519 }
  function Times3(x: bv32): bv32 { x * 3266489917 }
  function Times4(x: bv32): bv32 { x * 668265263 }
  function Times5(x: bv32): bv32 { x * 374761393 }

  const PRIME32_1: bv32 := Times1(1)
  const PRIME32_2: bv32 := Times2(1)
  const PRIME32_5: bv32 := Times5(1)

  function Sum(a: bv32, b: bv32): bv32 { a + b }

  function Rotl32(x: bv32, r: bv32): bv32
    requires 0 < r < 32
  {
    (x << r) | (x >> (32 - r))
  }

  function Widen(b: byte): bv32 { b as bv32 }

  function Join32(a: bv32, b: bv32, c: bv32, d: bv32): bv32 {
    a | (b << 8) | (c << 16) | (d << 24)
  }

  function LittleEndian32(a: byte, b: byte, c: byte, d: byte): bv32 {
    Join32(Widen(a), Widen(b), Widen(c), Widen(d))
  }

  function ReadLE32(s: seq<byte>, p: nat): bv32
    requires p + 4 <= |s|
  {
    LittleEndian32(s[p], s[p + 1], s[p + 2], s[p + 3])
  }

  function Round32(acc: bv32, input: bv32): bv32 {
    Times1(Rotl32(Sum(acc, Times2(input)), 13))
  }

  function Shift15(h: bv32): bv32 { h ^ (h >> 15) }
  function Shift13(h: bv32): bv32 { h ^ (h >> 13) }
  function Shift16(h: bv32): bv32 { h ^ (h >> 16) }

  function Avalanche32(h: bv32): bv32 {
    Shift16(Times3(Shift13(Times2(Shift15(h)))))
  }

  datatype Lanes32 = Lanes32(v1: bv32, v2: bv32, v3: bv32, v4: bv32)

  function Start32(seed: bv32): Lanes32 {
    Lanes32(seed + PRIME32_1 + PRIME32_2, seed + PRIME32_2, seed + 0, seed - PRIME32_1)
  }

  /** One stripe of sixteen bytes. */
  function Stripe32(v: Lanes32, s: seq<byte>, p: nat): Lanes32
    requires p + 16 <= |s|
  {
    Lanes32(Round32(v.v1, ReadLE32(s, p)), Round32(v.v2, ReadLE32(s, p + 4)),
            Round32(v.v3, ReadLE32(s, p + 8)), Round32(v.v4, ReadLE32(s, p + 12)))
  }

  function Converge32(v: Lanes32): bv32 {
    Sum(Sum(Sum(Rotl32(v.v1, 1), Rotl32(v.v2, 7)), Rotl32(v.v3, 12)), Rotl32(v.v4, 18))
  }

  function Mix4(h: bv32, w: bv32): bv32 {
    Times4(Rotl32(Sum(h, Times3(w)), 17))
  }

  function Mix1(h: bv32, b: byte): bv32 {
    Times1(Rotl32(Sum(h, Times5(Widen(b))), 11))
  }

  function Small32(seed: bv32): bv32 {
    seed + PRIME32_5
  }

  function Word32(n: nat): bv32
    requires n < 0x1_0000_0000
  {
    n as bv32
  }

  function AddTruncated32(h: bv32, n: nat): bv32
    requires n < 0x1_0000_0000
  {
    Sum(h, Word32(n))
  }

  /** The length is added modulo 2^32. */
  function AddLength32(h: bv32, n: nat): bv32 {
    AddTruncated32(h, n % 0x1_0000_0000)
  }

  // The reference: all whole stripes, the length, then the tail by words and bytes.

  function Stripes32(v: Lanes32, s: seq<byte>): Lanes32
    requires |s| % 16 == 0
  {
    if s == [] then v else Stripe32(Stripes32(v, s[..|s| - 16]), s, |s| - 16)
  }

  function Tail32(h: bv32, s: seq<byte>, p: nat): bv32
    requires p <= |s|
    decreases |s| - p
  {
    if p + 4 <= |s| then Tail32(Mix4(h, ReadLE32(s, p)), s, p + 4)
    else if p < |s| then Tail32(Mix1(h, s[p]), s, p + 1)
    else h
  }

  /** Bytes in whole stripes of 16. */
  function Whole16(n: nat): (r: nat)
    ensures r <= n && n - r == n % 16 && r % 16 == 0
  {
    n - n % 16
  }

  function Hash32(seed: bv32, s: seq<byte>): bv32 {
    var k := Whole16(|s|);
    var h := if |s| >= 16 then Converge32(Stripes32(Start32(seed), s[..k])) else Small32(seed);
    Avalanche32(Tail32(AddLength32(h, |s|), s[k..], 0))
  }

  /** XXH32_finalize: the switch over the number of bytes left, four groups of fall-through cases. */
  method Finalize32(h0: bv32, s: seq<byte>, p0: nat, len: nat) returns (r: bv32)
    requires p0 + len % 16 == |s|
    ensures r == Avalanche32(Tail32(h0, s, p0))
  {
    hide Mix4, Mix1, ReadLE32, Avalanche32, Tail32;
    var n := len % 16;
    var h, p := h0, p0;
    if n == 4 || n == 8 || n == 12 {
      h, p := Words32(h, s, p, n / 4);
      r := Avalanche32(h);
    } else if n == 5 || n == 9 || n == 13 {
      h, p := Words32(h, s, p, n / 4);
      h, p := Byte32(h, s, p);
      r := Avalanche32(h);
    } else if n == 6 || n == 10 || n == 14 {
      h, p := Words32(h, s, p, n / 4);
      h, p := Byte32(h, s, p);
      h, p := Byte32(h, s, p);
      r := Avalanche32(h);
    } else {
      h, p := Words32(h, s, p, n / 4);
      if n % 4 == 3 {
        h, p := Byte32(h, s, p);
      }
      if n % 4 >= 2 {
        h, p := Byte32(h, s, p);
      }
      if n % 4 >= 1 {
        h, p := Byte32(h, s, p);
      }
      r := Avalanche32(h);
    }
    TailDone32(h, s);
  }

  lemma TailDone32(h: bv32, s: seq<byte>)
    ensures Tail32(h, s, |s|) == h
  {
  }

  /** The fall-through over PROCESS4: n of them, at most three. */
  method Words32(h0: bv32, s: seq<byte>, p0: nat, n: nat) returns (h: bv32, p: nat)
    requires n <= 3 && p0 + 4 * n <= |s|
    ensures p == p0 + 4 * n && Tail32(h, s, p) == Tail32(h0, s, p0)
  {
    hide Mix4, Mix1, ReadLE32;
    h, p := h0, p0;
    if n == 3 {
      h, p := Mix4(h, ReadLE32(s, p)), p + 4;
    }
    assert Tail32(h, s, p) == Tail32(h0, s, p0);
    if n >= 2 {
      h, p := Mix4(h, ReadLE32(s, p)), p + 4;
    }
    assert Tail32(h, s, p) == Tail32(h0, s, p0);
    if n >= 1 {
      h, p := Mix4(h, ReadLE32(s, p)), p + 4;
    }
  }

  method Byte32(h0: bv32, s: seq<byte>, p0: nat) returns (h: bv32, p: nat)
    requires p0 < |s| < p0 + 4
    ensures p == p0 + 1 && Tail32(h, s, p) == Tail32(h0, s, p0)
  {
    hide Mix4, Mix1, ReadLE32;
    h, p := Mix1(h0, s[p0]), p0 + 1;
  }

  lemma StripesStep32(v: Lanes32, s: seq<byte>, p: nat)
    requires p % 16 == 0 && p + 16 <= |s|
    ensures Stripes32(v, s[..p + 16]) == Stripe32(Stripes32(v, s[..p]), s, p)
  {
    hide Round32, ReadLE32;
    var t := s[..p + 16];
    assert t[..p] == s[..p];
    assert Stripe32(Stripes32(v, s[..p]), t, p) == Stripe32(Stripes32(v, s[..p]), s, p) by {
      ReadPrefix32(s, t, p);
      ReadPrefix32(s, t, p + 4);
      ReadPrefix32(s, t, p + 8);
      ReadPrefix32(s, t, p + 12);
    }
  }

  lemma ReadPrefix32(s: seq<byte>, t: seq<byte>, p: nat)
    requires p + 4 <= |t| <= |s| && t == s[..|t|]
    ensures ReadLE32(t, p) == ReadLE32(s, p)
  {
    hide LittleEndian32;
  }

  /** The loop over whole stripes. */
  method ConsumeStripes32(input: seq<byte>, seed: bv32) returns (v: Lanes32, p: nat)
    requires |input| >= 16
    ensures p == Whole16(|input|) && v == Stripes32(Start32(seed), input[..p])
  {
    hide Stripe32, Start32;
    p, v := 0, Start32(seed);
    var limit := |input| - 15;
    assert input[..0] == [];
    while true
      invariant p % 16 == 0 && p + 16 <= |input| && v == Stripes32(Start32(seed), input[..p])
      decreases |input| - p
    {
      StripesStep32(Start32(seed), input, p);
      v := Stripe32(v, input, p);
      p := p + 16;
      if p >= limit {
        break;
      }
    }
  }

  /** XXH32 in one shot. */
  method XXH32(input: seq<byte>, seed: bv32) returns (r: bv32)
    ensures r == Hash32(seed, input)
  {
    hide Avalanche32, Converge32, Stripes32, Tail32, AddLength32, Small32;
    var p, h32 := 0, Small32(seed);
    if |input| >= 16 {
      var v;
      v, p := ConsumeStripes32(input, seed);
      h32 := Converge32(v);
    }
    h32 := AddLength32(h32, |input|);
    TailSlice32(h32, input, p, 0);
    r := Finalize32(h32, input, p, |input| % 16);
  }

  /** The tail read in place is the tail cut off. */
  lemma {:induction false} TailSlice32(h: bv32, s: seq<byte>, k: nat, p: nat)
    requires k + p <= |s|
    ensures Tail32(h, s, k + p) == Tail32(h, s[k..], p)
    decreases |s| - p
  {
    hide Mix4, Mix1, ReadLE32;
    if k + p + 4 <= |s| {
      SliceRead32(s, k, p);
      TailSlice32(Mix4(h, ReadLE32(s, k + p)), s, k, p + 4);
    } else if k + p < |s| {
      TailSlice32(Mix1(h, s[k + p]), s, k, p + 1);
    }
  }

  lemma SliceRead32(s: seq<byte>, k: nat, p: nat)
    requires k + p + 4 <= |s|
    ensures ReadLE32(s, k + p) == ReadLE32(s[k..], p)
  {
    hide LittleEndian32;
  }

  // --------------------------------------------------------------- streaming

  /** XXH32_state_t. */
  class State32 {
    var totalLen32: nat
    var largeLen: bool
    var v: Lanes32
    const mem32: array<byte>
    var memsize: nat

    ghost predicate Totals(n: nat)
      reads this
    {
      totalLen32 == n % 0x1_0000_0000 && largeLen == (n >= 16)
    }

    /** Whole stripes of data consumed, the rest buffered. */
    ghost predicate Buffered(seed: bv32, data: seq<byte>)
      reads this, mem32
    {
      && mem32.Length == 16 && memsize == |data| % 16
      && v == Stripes32(Start32(seed), data[..Whole16(|data|)])
      && mem32[..memsize] == data[Whole16(|data|)..]
    }

    /** The state after feeding in data. */
    ghost predicate Holds(seed: bv32, data: seq<byte>)
      reads this, mem32
    {
      Totals(|data|) && Buffered(seed, data)
    }

    /** The first k bytes of data are consumed, and so nothing is buffered. */
    ghost predicate Consumed(seed: bv32, data: seq<byte>, k: nat)
      reads this, mem32
    {
      mem32.Length == 16 && k <= |data| && k % 16 == 0 && v == Stripes32(Start32(seed), data[..k])
    }

    constructor ()
      ensures mem32.Length == 16 && fresh(mem32)
    {
      hide *;
      mem32 := new byte[16];
      totalLen32, largeLen, v, memsize := 0, false, Lanes32(0, 0, 0, 0), 0;
    }

    /** XXH32_reset. */
    method Reset(seed: bv32)
      requires mem32.Length == 16
      modifies this
      ensures Holds(seed, [])
    {
      hide Start32;
      totalLen32, largeLen, v, memsize := 0, false, Start32(seed), 0;
    }

    /** XXH32_update: complete the buffered stripe, consume whole stripes, buffer the rest. */
    method Update(input: seq<byte>, ghost seed: bv32, ghost data: seq<byte>)
      requires Holds(seed, data)
      modifies this, mem32
      ensures Holds(seed, data + input)
    {
      hide Stripes32, Start32, Whole16;
      CountIn(|input|, |data|);
      if memsize + |input| < 16 {
        UpdateShort(input, seed, data);
      } else {
        UpdateLong(input, seed, data);
      }
    }

    method CountIn(len: nat, ghost n: nat)
      requires Totals(n)
      modifies `totalLen32, `largeLen
      ensures Totals(n + len)
    {
      TotalAfter(n, len);
      totalLen32 := (totalLen32 + len) % 0x1_0000_0000;
      largeLen := largeLen || len >= 16 || totalLen32 >= 16;
    }

    method UpdateShort(input: seq<byte>, ghost seed: bv32, ghost data: seq<byte>)
      requires Buffered(seed, data) && memsize + |input| < 16
      modifies mem32, `memsize
      ensures Buffered(seed, data + input)
    {
      hide Stripes32, Start32;
      StripeAfter(|data|, |input|);
      BufferedMore(data, input);
      ghost var kept := mem32[..memsize];
      Fill(input, memsize, 0, |input|);
      var e := memsize + |input|;
      assert mem32[..e] == mem32[..memsize] + mem32[memsize..e];
      assert input[0..|input|] == input;
      memsize := e;
    }

    method UpdateLong(input: seq<byte>, ghost seed: bv32, ghost data: seq<byte>)
      requires Buffered(seed, data) && memsize + |input| >= 16
      modifies mem32, `memsize, `v
      ensures Buffered(seed, data + input)
    {
      hide Stripes32, Start32;
      var p := CompletePending(input, seed, data);
      p := ConsumeWhole(input, p, seed, data);
      Remainder(data, input, p);
      KeepRest(input, p);
    }

    /** What is left, less than a stripe. */
    method KeepRest(input: seq<byte>, p: nat)
      requires mem32.Length == 16 && memsize == 0 && p <= |input| && |input| - p < 16
      modifies mem32, `memsize
      ensures memsize == |input| - p && mem32[..memsize] == input[p..]
    {
      if p < |input| {
        Fill(input, 0, p, |input| - p);
        memsize := |input| - p;
      }
    }

    /** XXH_memcpy into the buffer. */
    method Fill(input: seq<byte>, at: nat, from: nat, n: nat)
      requires mem32.Length == 16 && at + n <= 16 && from + n <= |input|
      modifies mem32
      ensures mem32[..at] == old(mem32[..at])
      ensures mem32[at..at + n] == input[from..from + n]
    {
      hide *;
      forall i | 0 <= i < n {
        mem32[at + i] := input[from + i];
      }
      assert |mem32[at..at + n]| == |input[from..from + n]|;
      assert forall i {:trigger input[from + i]} :: 0 <= i < n ==> mem32[at..at + n][i] == input[from..from + n][i];
    }

    /** Some data left from a previous update: fill the buffer up and consume it. */
    method CompletePending(input: seq<byte>, ghost seed: bv32, ghost data: seq<byte>) returns (p: nat)
      requires mem32.Length == 16 && memsize == |data| % 16 && memsize + |input| >= 16
      requires v == Stripes32(Start32(seed), data[..Whole16(|data|)]) && mem32[..memsize] == data[Whole16(|data|)..]
      modifies mem32, `v, `memsize
      ensures p <= |input| && memsize == 0 && Consumed(seed, data + input, |data| + p)
    {
      hide Stripes32, Start32, Stripe32;
      ghost var all, base := data + input, Whole16(|data|);
      assert all[..base] == data[..base];
      p := 0;
      if memsize > 0 {
        p := 16 - memsize;
        ghost var kept := mem32[..memsize];
        Fill(input, memsize, 0, p);
        assert mem32[..] == kept + input[0..p] == all[base..base + 16];
        StripesStep32(Start32(seed), all, base);
        StripeSlice32(Stripes32(Start32(seed), all[..base]), all, base, mem32[..]);
        v := Stripe32(v, mem32[..], 0);
        memsize := 0;
      }
    }

    /** The stripes that lie whole in the input. */
    method ConsumeWhole(input: seq<byte>, p0: nat, ghost seed: bv32, ghost data: seq<byte>) returns (p: nat)
      requires p0 <= |input| && Consumed(seed, data + input, |data| + p0)
      modifies `v
      ensures p0 <= p <= |input| && |input| - p < 16 && Consumed(seed, data + input, |data| + p)
    {
      hide Stripes32, Start32, Stripe32;
      ghost var all := data + input;
      p := p0;
      while p + 16 <= |input|
        invariant p0 <= p <= |input| && Consumed(seed, all, |data| + p)
      {
        ghost var c := |data| + p;
        StripesStep32(Start32(seed), all, c);
        SplitStripe32(v, all, c, input, p, data);
        v := Stripe32(v, input, p);
        p := p + 16;
      }
    }

    /** XXH32_digest. */
    method Digest(ghost seed: bv32, ghost data: seq<byte>) returns (r: bv32)
      requires Holds(seed, data)
      ensures r == Hash32(seed, data)
    {
      hide Stripe32, Converge32, Small32, AddLength32, Avalanche32, Tail32;
      var h32 := if largeLen then Converge32(v) else Small32(v.v3);
      if !largeLen {
        assert data[..Whole16(|data|)] == [];
        SeedKept(seed);
      }
      AddLengthMod(h32, |data|);
      h32 := AddLength32(h32, totalLen32);
      r := Finalize32(h32, mem32[..memsize], 0, memsize);
    }
  }

  lemma SeedKept(seed: bv32)
    ensures Start32(seed).v3 == seed
  {
  }

  lemma AddLengthMod(h: bv32, n: nat)
    ensures AddLength32(h, n % 0x1_0000_0000) == AddLength32(h, n)
  {
    hide AddTruncated32;
  }

  lemma TotalAfter(n: nat, len: nat)
    ensures (n % 0x1_0000_0000 + len) % 0x1_0000_0000 == (n + len) % 0x1_0000_0000
  {
  }

  lemma StripeAfter(n: nat, len: nat)
    ensures n % 16 + len < 16 ==> (n + len) % 16 == n % 16 + len && Whole16(n + len) == Whole16(n)
  {
  }

  lemma BufferedMore(data: seq<byte>, input: seq<byte>)
    requires |data| % 16 + |input| < 16
    ensures (data + input)[Whole16(|data|)..] == data[Whole16(|data|)..] + input
    ensures (data + input)[..Whole16(|data|)] == data[..Whole16(|data|)]
  {
  }

  lemma Remainder(data: seq<byte>, input: seq<byte>, p: nat)
    requires p <= |input| && |input| - p < 16 && (|data| + p) % 16 == 0
    ensures Whole16(|data + input|) == |data| + p && |data + input| % 16 == |input| - p
    ensures (data + input)[|data| + p..] == input[p..]
  {
  }

  lemma StripeSlice32(v: Lanes32, s: seq<byte>, p: nat, t: seq<byte>)
    requires p + 16 <= |s| && t == s[p..p + 16]
    ensures Stripe32(v, t, 0) == Stripe32(v, s, p)
  {
    hide LittleEndian32, Round32;
  }

  lemma SplitStripe32(v: Lanes32, all: seq<byte>, c: nat, input: seq<byte>, p: nat, data: seq<byte>)
    requires all == data + input && c == |data| + p && p + 16 <= |input|
    ensures Stripe32(v, input, p) == Stripe32(v, all, c)
  {
    assert input[p..p + 16] == all[c..c + 16];
    StripeSlice32(v, all, c, all[c..c + 16]);
    StripeSlice32(v, input, p, input[p..p + 16]);
  }

  /** Reset, one update a chunk, digest: the one-shot hash of the concatenation, however it was cut. */
  method HashChunks32(chunks: seq<seq<byte>>, seed: bv32) returns (r: bv32)
    ensures r == Hash32(seed, Concat(chunks))
  {
    hide *;
    assert Concat([]) == [] by { ConcatSteps(chunks, 0); }
    var state := new State32();
    state.Reset(seed);
    for i := 0 to |chunks|
      invariant fresh(state) && fresh(state.mem32) && state.Holds(seed, Concat(chunks[..i]))
    {
      ConcatSteps(chunks, i);
      state.Update(chunks[i], seed, Concat(chunks[..i]));
    }
    assert chunks[..|chunks|] == chunks;
    r := state.Digest(seed, Concat(chunks));
  }
}
