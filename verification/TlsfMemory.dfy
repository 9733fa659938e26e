/** How blocks and free-list links lie in memory, and which of them a write can affect. */
module TlsfMemory {
  import opened TlsfLists
  import opened TlsfMapping
  import opened TlsfBlocks

  /** The size word: a multiple of 8 with the free bit and the prev-free bit added. */
  function Header(words: nat, free: bool, prevFree: bool): nat {
    8 * words + (if free then 1 else 0) + (if prevFree then 2 else 0)
  }

  /** block_size, in words */
  function SizeOf(h: nat): nat { (h - h % 4) / 8 }

  predicate FreeBit(h: nat) { h % 2 == 1 }

  predicate PrevFreeBit(h: nat) { h / 2 % 2 == 1 }

  /** block_set_size */
  function SetSize(h: nat, words: nat): nat { 8 * words + h % 4 }

  function SetFree(h: nat): nat { if FreeBit(h) then h else h + 1 }

  function SetUsed(h: nat): nat { if FreeBit(h) then h - 1 else h }

  function SetPrevFree(h: nat): nat { if PrevFreeBit(h) then h else h + 2 }

  function SetPrevUsed(h: nat): nat { if PrevFreeBit(h) then h - 2 else h }

  lemma HeaderParts(w: nat, f: bool, p: bool)
    ensures SizeOf(Header(w, f, p)) == w
    ensures FreeBit(Header(w, f, p)) == f
    ensures PrevFreeBit(Header(w, f, p)) == p
  {
    if f { if p { LowBits(w, 3); } else { LowBits(w, 1); } } else { if p { LowBits(w, 2); } else { LowBits(w, 0); } }
  }

  lemma LowBits(w: nat, k: nat)
    requires k < 4
    ensures (8 * w + k) % 4 == k
    ensures (8 * w + k) % 2 == k % 2
    ensures (8 * w + k) / 2 % 2 == k / 2
  {
    QuotientIs(8 * w + k, 4, 2 * w, k);
    QuotientIs(8 * w + k, 2, 4 * w + k / 2, k % 2);
    QuotientIs(4 * w + k / 2, 2, 2 * w, k / 2);
  }

  lemma QuotientIs(n: nat, d: nat, q: nat, r: nat)
    requires 0 < d && n == q * d + r && r < d
    ensures n / d == q && n % d == r
  {
    DivIs(n, d, q);
    DivSplit(n, d);
  }

  lemma HeaderSets(w: nat, f: bool, p: bool)
    ensures SetFree(Header(w, f, p)) == Header(w, true, p)
    ensures SetUsed(Header(w, f, p)) == Header(w, false, p)
    ensures SetPrevFree(Header(w, f, p)) == Header(w, f, true)
    ensures SetPrevUsed(Header(w, f, p)) == Header(w, f, false)
  {
  }

  /** block_set_size keeps the two flag bits, whatever the word held before. */
  lemma HeaderSized(h: nat, w: nat)
    ensures SetSize(h, w) == Header(w, FreeBit(h), PrevFreeBit(h))
  {
  }

  ghost predicate HeaderOk(m: seq<nat>, S: Blocks, F: set<nat>, Q: set<nat>, b: nat)
    requires b in S
  {
    b + 1 < |m| && m[b + 1] == Header(S[b].words, b in F, b in Q)
  }

  /** F holds the blocks marked free, Q the blocks marked as following a free one. */
  ghost predicate Headers(m: seq<nat>, S: Blocks, F: set<nat>, Q: set<nat>) {
    forall b {:trigger HeaderOk(m, S, F, Q, b)} | b in S :: HeaderOk(m, S, F, Q, b)
  }

  ghost predicate LinkStored(m: seq<nat>, L: map<nat, Link>, b: nat)
    requires b in L
  {
    b + 3 < |m| && m[b + 2] == L[b].next && m[b + 3] == L[b].prev
  }

  ghost predicate LinksStored(m: seq<nat>, L: map<nat, Link>) {
    forall b {:trigger LinkStored(m, L, b)} | b in L :: LinkStored(m, L, b)
  }

  /** A free block is announced to the block behind it, by that block's flag and prev_phys_block. */
  ghost predicate FlagOk(m: seq<nat>, S: Blocks, F: set<nat>, Q: set<nat>, b: nat)
    requires b in S
  {
    S[b].words > 0 ==>
      && Next(S, b) < |m|
      && (Next(S, b) in Q <==> b in F)
      && (b in F ==> m[Next(S, b)] == b)
  }

  /** All blocks but those in transit are announced correctly. */
  ghost predicate Flags(m: seq<nat>, S: Blocks, F: set<nat>, Q: set<nat>, odd: set<nat>) {
    forall b {:trigger FlagOk(m, S, F, Q, b)} | b in S && b !in odd :: FlagOk(m, S, F, Q, b)
  }

  ghost predicate EndOk(S: Blocks, F: set<nat>, Q: set<nat>, b: nat)
    requires b in S
  {
    (S[b].words == 0 ==> b !in F) && (S[b].pred == 0 ==> b !in Q)
  }

  /** Sentinels are never free, and nothing precedes a pool's first block. */
  ghost predicate Ends(S: Blocks, F: set<nat>, Q: set<nat>) {
    && (forall b {:trigger EndOk(S, F, Q, b)} | b in S :: EndOk(S, F, Q, b))
    && F <= S.Keys
  }

  ghost predicate PayloadSame(m: seq<nat>, m2: seq<nat>, S: Blocks, c: nat)
    requires c in S
  {
    |m| == |m2| && forall i | c + 2 <= i <= Next(S, c) && i < |m| :: m2[i] == m[i]
  }

  ghost predicate PrevSame(m: seq<nat>, m2: seq<nat>, S: Blocks, c: nat)
    requires c in S
  {
    |m| == |m2| && (S[c].words > 0 && Next(S, c) < |m| ==> m2[Next(S, c)] == m[Next(S, c)])
  }

  /** Writing a block's size word changes nothing else. */
  lemma HeaderWrite(m: seq<nat>, S: Blocks, F: set<nat>, Q: set<nat>, F2: set<nat>, Q2: set<nat>, b: nat, v: nat)
    requires Headers(m, S, F, Q) && b in S && b + 1 < |m|
    requires v == Header(S[b].words, b in F2, b in Q2)
    requires F2 - {b} == F - {b} && Q2 - {b} == Q - {b}
    ensures Headers(m[b + 1 := v], S, F2, Q2)
  {
    hide Header;
    var m2 := m[b + 1 := v];
    forall c | c in S ensures HeaderOk(m2, S, F2, Q2, c) {
      assert HeaderOk(m, S, F, Q, c);
      if c != b {
        assert c in F2 - {b} <==> c in F2;
        assert c in Q2 - {b} <==> c in Q2;
      }
    }
  }

  lemma HeaderWriteOthers(m: seq<nat>, S: Blocks, b: nat, v: nat, c: nat)
    requires Separate(S) && b in S && b + 1 < |m| && c in S
    requires forall x {:trigger x in S} | x in S && S[x].words > 0 :: S[x].words >= 3
    ensures PayloadSame(m, m[b + 1 := v], S, c)
    ensures PrevSame(m, m[b + 1 := v], S, c)
  {
    assert SepOk(S, b, c);
    assert SepOk(S, c, b);
  }

  lemma HeaderWriteLinks(m: seq<nat>, S: Blocks, L: map<nat, Link>, b: nat, v: nat)
    requires Separate(S) && b in S && b + 1 < |m| && LinksStored(m, L)
    requires forall x {:trigger x in L} | x in L :: x in S && S[x].words >= 3
    ensures LinksStored(m[b + 1 := v], L)
  {
    forall c | c in L ensures LinkStored(m[b + 1 := v], L, c) {
      assert LinkStored(m, L, c);
      assert SepOk(S, b, c);
      assert SepOk(S, c, b);
    }
  }

  /** A word behind the size word of b; it belongs to b only. */
  ghost predicate Inside(S: Blocks, b: nat, i: nat) {
    b in S && b + 2 <= i <= Next(S, b)
  }

  lemma InnerWrite(m: seq<nat>, S: Blocks, F: set<nat>, Q: set<nat>, b: nat, i: nat, v: nat)
    requires Separate(S) && Headers(m, S, F, Q) && Inside(S, b, i) && i < |m|
    ensures Headers(m[i := v], S, F, Q)
  {
    hide Header;
    forall c | c in S ensures HeaderOk(m[i := v], S, F, Q, c) {
      assert HeaderOk(m, S, F, Q, c);
      assert SepOk(S, b, c);
      assert SepOk(S, c, b);
    }
  }

  lemma InnerWriteOthers(m: seq<nat>, S: Blocks, b: nat, i: nat, v: nat, c: nat)
    requires Separate(S) && Inside(S, b, i) && i < |m| && c in S
    ensures c != b ==> PayloadSame(m, m[i := v], S, c)
    ensures c != b || i != Next(S, b) ==> PrevSame(m, m[i := v], S, c)
  {
    assert SepOk(S, b, c);
    assert SepOk(S, c, b);
  }

  lemma InnerWriteLinks(m: seq<nat>, S: Blocks, L: map<nat, Link>, b: nat, i: nat, v: nat)
    requires Separate(S) && Inside(S, b, i) && i < |m| && LinksStored(m, L)
    requires forall x {:trigger x in L} | x in L :: x in S && S[x].words >= 3
    requires b !in L || i == Next(S, b)
    ensures LinksStored(m[i := v], L)
  {
    forall c | c in L ensures LinkStored(m[i := v], L, c) {
      assert LinkStored(m, L, c);
      assert SepOk(S, b, c);
      assert SepOk(S, c, b);
    }
  }

  /** Nothing outside the free lists sees a difference: size words, prev_phys links and the payload
      of used blocks are the same. */
  ghost predicate OnlyLinksChanged(m: seq<nat>, m2: seq<nat>, S: Blocks, F: set<nat>) {
    && |m| == |m2|
    && forall c {:trigger OnlyLinksChangedAt(m, m2, S, F, c)} | c in S :: OnlyLinksChangedAt(m, m2, S, F, c)
  }

  ghost predicate OnlyLinksChangedAt(m: seq<nat>, m2: seq<nat>, S: Blocks, F: set<nat>, c: nat)
    requires c in S
  {
    PrevSame(m, m2, S, c) && (c !in F ==> PayloadSame(m, m2, S, c))
  }

  lemma LinkWrite(m: seq<nat>, S: Blocks, F: set<nat>, Q: set<nat>, b: nat, i: nat, v: nat)
    requires Separate(S) && Headers(m, S, F, Q) && b in F && Inside(S, b, i) && i < Next(S, b) && i < |m|
    ensures Headers(m[i := v], S, F, Q) && OnlyLinksChanged(m, m[i := v], S, F)
  {
    InnerWrite(m, S, F, Q, b, i, v);
    forall c | c in S ensures OnlyLinksChangedAt(m, m[i := v], S, F, c) {
      InnerWriteOthers(m, S, b, i, v, c);
    }
  }

  lemma OnlyLinksTrans(m: seq<nat>, m2: seq<nat>, m3: seq<nat>, S: Blocks, F: set<nat>)
    requires OnlyLinksChanged(m, m2, S, F) && OnlyLinksChanged(m2, m3, S, F)
    ensures OnlyLinksChanged(m, m3, S, F)
  {
    forall c | c in S ensures OnlyLinksChangedAt(m, m3, S, F, c) {
      assert OnlyLinksChangedAt(m, m2, S, F, c);
      assert OnlyLinksChangedAt(m2, m3, S, F, c);
    }
  }

  lemma FlagsUntouched(m: seq<nat>, m2: seq<nat>, S: Blocks, F: set<nat>, Q: set<nat>, odd: set<nat>)
    requires OnlyLinksChanged(m, m2, S, F) && Flags(m, S, F, Q, odd)
    ensures Flags(m2, S, F, Q, odd)
  {
    forall c | c in S && c !in odd ensures FlagOk(m2, S, F, Q, c) {
      assert FlagOk(m, S, F, Q, c);
      assert OnlyLinksChangedAt(m, m2, S, F, c);
    }
  }

  ghost predicate UsedIn(S: Blocks, F: set<nat>, c: nat) {
    c in S && c !in F && S[c].words > 0
  }

  /** What the users of blocks depend on. */
  datatype View = View(m: seq<nat>, S: Blocks, F: set<nat>)

  ghost predicate QuietAt(v: View, v2: View, c: nat)
    requires c in v.S
  {
    UsedIn(v2.S, v2.F, c) && v2.S[c].words == v.S[c].words && PayloadSame(v.m, v2.m, v.S, c)
  }

  /** Every used block outside X stays in use with its size and contents, and no other becomes used. */
  ghost predicate Quiet(v: View, v2: View, X: set<nat>) {
    && |v.m| == |v2.m|
    && (forall c {:trigger QuietAt(v, v2, c)} | UsedIn(v.S, v.F, c) && c !in X :: QuietAt(v, v2, c))
    && forall c {:trigger UsedIn(v2.S, v2.F, c)} | UsedIn(v2.S, v2.F, c) && c !in X :: UsedIn(v.S, v.F, c)
  }

  lemma QuietTrans(u: View, v: View, w: View, X: set<nat>, Y: set<nat>, Z: set<nat>)
    requires Quiet(u, v, X) && Quiet(v, w, Y) && X <= Z && Y <= Z
    ensures Quiet(u, w, Z)
  {
    forall c | UsedIn(u.S, u.F, c) && c !in Z ensures QuietAt(u, w, c) {
      assert QuietAt(u, v, c);
      assert QuietAt(v, w, c);
    }
  }

  lemma QuietUntouched(m: seq<nat>, m2: seq<nat>, S: Blocks, F: set<nat>)
    requires OnlyLinksChanged(m, m2, S, F)
    ensures Quiet(View(m, S, F), View(m2, S, F), {})
  {
    forall c | UsedIn(S, F, c) ensures QuietAt(View(m, S, F), View(m2, S, F), c) {
      assert OnlyLinksChangedAt(m, m2, S, F, c);
    }
  }

  /** A block that is free before and after need not be excepted. */
  lemma QuietDrop(v: View, v2: View, b: nat)
    requires Quiet(v, v2, {b}) && b in v.F && b in v2.F
    ensures Quiet(v, v2, {})
  {
    forall c | UsedIn(v.S, v.F, c) ensures QuietAt(v, v2, c) {
      assert c !in {b};
    }
  }

  lemma QuietTrans3(u: View, v: View, w: View, x: View, X: set<nat>, Y: set<nat>, Z: set<nat>, A: set<nat>)
    requires Quiet(u, v, X) && Quiet(v, w, Y) && Quiet(w, x, Z) && X <= A && Y <= A && Z <= A
    ensures Quiet(u, x, A)
  {
    QuietTrans(u, v, w, X, Y, A);
    QuietTrans(u, w, x, A, Z, A);
  }

  lemma QuietSame(v: View)
    ensures Quiet(v, v, {})
  {
  }

  /** A block that is free afterwards was not in use before. */
  lemma QuietFree(v: View, v2: View, b: nat)
    requires Quiet(v, v2, {}) && b in v2.F
    ensures !UsedIn(v.S, v.F, b)
  {
    assert UsedIn(v.S, v.F, b) ==> QuietAt(v, v2, b);
  }

  /** Byte k of a little-endian word. */
  function Byte(w: nat, k: nat): nat {
    if k == 0 then w % 256 else Byte(w / 256, k - 1)
  }

  function ByteAt(m: seq<nat>, a: nat): nat
    requires a / 8 < |m|
  {
    Byte(m[a / 8], a % 8)
  }

  /** The low n bytes of y, the rest of x. */
  function TakeBytes(x: nat, y: nat, n: nat): nat {
    if n == 0 then x else y % 256 + 256 * TakeBytes(x / 256, y / 256, n - 1)
  }

  lemma {:induction false} TakenBytes(x: nat, y: nat, n: nat, k: nat)
    ensures Byte(TakeBytes(x, y, n), k) == if k < n then Byte(y, k) else Byte(x, k)
    decreases n
  {
    if n > 0 {
      var t := TakeBytes(x / 256, y / 256, n - 1);
      LowByte(y % 256, t);
      if k > 0 { TakenBytes(x / 256, y / 256, n - 1, k - 1); }
    }
  }

  lemma LowByte(a: nat, t: nat)
    requires a < 256
    ensures (a + 256 * t) % 256 == a && (a + 256 * t) / 256 == t
  {
    QuotientIs(a + 256 * t, 256, t, a);
  }

  /** memcpy of n bytes from word s to word d. */
  function WordsCopied(m: seq<nat>, d: nat, s: nat, n: nat): (m2: seq<nat>)
    requires s + (n + 7) / 8 <= |m|
  {
    seq(|m|, i requires 0 <= i < |m| =>
      if d <= i < d + n / 8 then m[s + (i - d)]
      else if i == d + n / 8 && n % 8 != 0 then TakeBytes(m[i], m[s + n / 8], n % 8)
      else m[i])
  }

  lemma CopiedByte(m: seq<nat>, d: nat, s: nat, n: nat, k: nat)
    requires s + (n + 7) / 8 <= |m| && d + (n + 7) / 8 <= |m| && k < n
    ensures (8 * d + k) / 8 < |m| && (8 * s + k) / 8 < |m|
    ensures ByteAt(WordsCopied(m, d, s, n), 8 * d + k) == ByteAt(m, 8 * s + k)
  {
    var q, r := k / 8, k % 8;
    QuotientIs(8 * d + k, 8, d + q, r);
    QuotientIs(8 * s + k, 8, s + q, r);
    var m2 := WordsCopied(m, d, s, n);
    if q < n / 8 {
      assert m2[d + q] == m[s + q];
    } else {
      assert q == n / 8 && r < n % 8;
      assert m2[d + q] == TakeBytes(m[d + q], m[s + q], n % 8);
      TakenBytes(m[d + q], m[s + q], n % 8, r);
    }
  }

  /** Whoever owns a used block may write anything into its payload. */
  ghost predicate WritesOnly(m: seq<nat>, m2: seq<nat>, S: Blocks, b: nat)
    requires b in S
  {
    |m| == |m2| && forall i | 0 <= i < |m| && !Inside(S, b, i) :: m2[i] == m[i]
  }

  lemma PayloadWrite(m: seq<nat>, m2: seq<nat>, S: Blocks, F: set<nat>, Q: set<nat>, odd: set<nat>, L: map<nat, Link>, b: nat)
    requires Separate(S) && UsedIn(S, F, b) && WritesOnly(m, m2, S, b)
    requires Headers(m, S, F, Q) && Flags(m, S, F, Q, odd) && LinksStored(m, L)
    requires forall x {:trigger x in L} | x in L :: x in S && S[x].words >= 3 && x in F
    ensures Headers(m2, S, F, Q) && Flags(m2, S, F, Q, odd) && LinksStored(m2, L)
    ensures Quiet(View(m, S, F), View(m2, S, F), {b})
  {
    hide Header;
    forall c | c in S ensures HeaderOk(m2, S, F, Q, c) {
      assert HeaderOk(m, S, F, Q, c);
      assert SepOk(S, b, c) && SepOk(S, c, b);
    }
    forall c | c in S && c !in odd ensures FlagOk(m2, S, F, Q, c) {
      assert FlagOk(m, S, F, Q, c);
      assert SepOk(S, b, c) && SepOk(S, c, b);
    }
    forall c | c in L ensures LinkStored(m2, L, c) {
      assert LinkStored(m, L, c);
      assert SepOk(S, b, c) && SepOk(S, c, b);
    }
    forall c | UsedIn(S, F, c) && c !in {b} ensures QuietAt(View(m, S, F), View(m2, S, F), c) {
      assert SepOk(S, b, c) && SepOk(S, c, b);
    }
  }
}
