/** The kernel heap: a first-fit list of headers laid out in address order, split on allocation and
    fully coalesced on release.

    The functions describe the list as a value. `KernelHeap` is the list the way the kernel keeps it:
    headers in RAM, linked by address and patched in place. */
module Heap {
  import opened Word32

  const HEADER := 12       // sizeof(block_hdr): size, free, next
  const MIN_REMAINDER := 16
  const SRAM_END := 0x4088_0000

  /** A block: its header is at `addr`, its payload in the `size` bytes that follow. */
  datatype Block = Block(addr: nat, size: nat, free: bool)

  function End(b: Block): nat { b.addr + HEADER + b.size }

  function Payload(b: Block): nat { b.addr + HEADER }

  predicate Fits(b: Block, size: nat) { b.free && b.size >= size }

  function FirstFit(bs: seq<Block>, size: nat): (i: nat)
    ensures i <= |bs|
    ensures forall j :: 0 <= j < i ==> !Fits(bs[j], size)
    ensures i < |bs| ==> Fits(bs[i], size)
  {
    if bs == [] || Fits(bs[0], size) then 0 else 1 + FirstFit(bs[1..], size)
  }

  /** The blocks that take the place of block `b` when it is allocated. */
  function Pieces(b: Block, size: nat): seq<Block>
    requires b.size >= size
  {
    if b.size >= size + HEADER + MIN_REMAINDER
    then [Block(b.addr, size, false), Block(b.addr + HEADER + size, b.size - size - HEADER, true)]
    else [b.(free := false)]
  }

  /** Takes block `i`, leaving a free remainder when that is worth a header of its own. */
  function Carve(bs: seq<Block>, i: nat, size: nat): seq<Block>
    requires i < |bs| && bs[i].size >= size
  {
    bs[..i] + Pieces(bs[i], size) + bs[i + 1..]
  }

  datatype Allocation = Allocation(blocks: seq<Block>, ptr: nat)

  /** `ptr == 0` is the null pointer. */
  function Alloc(bs: seq<Block>, request: nat): Allocation {
    var size := RoundUp(request);
    var i := FirstFit(bs, size);
    if i == |bs| then Allocation(bs, 0) else Allocation(Carve(bs, i, size), Payload(bs[i]))
  }

  function MarkFree(bs: seq<Block>, ptr: nat): (r: seq<Block>)
    ensures |r| == |bs|
  {
    seq(|bs|, i requires 0 <= i < |bs| => if Payload(bs[i]) == ptr then bs[i].(free := true) else bs[i])
  }

  function Merge(bs: seq<Block>): seq<Block>
    decreases |bs|
  {
    if |bs| < 2 then bs
    else if bs[0].free && bs[1].free then Merge([Join(bs[0], bs[1])] + bs[2..])
    else [bs[0]] + Merge(bs[1..])
  }

  function Join(b: Block, c: Block): Block { b.(size := b.size + HEADER + c.size) }

  function Free(bs: seq<Block>, ptr: nat): seq<Block> {
    if ptr == 0 then bs else Merge(MarkFree(bs, ptr))
  }

  function Elements(ptrs: seq<nat>): set<nat> { set p | p in ptrs }

  function FreeAll(bs: seq<Block>, ptrs: seq<nat>): seq<Block>
    decreases |ptrs|
  {
    if ptrs == [] then bs else FreeAll(Free(bs, ptrs[0]), ptrs[1..])
  }

  function FreeBytes(bs: seq<Block>): nat {
    if bs == [] then 0 else (if bs[0].free then bs[0].size else 0) + FreeBytes(bs[1..])
  }

  function Initial(lo: nat, hi: nat): seq<Block>
    requires lo + HEADER <= hi
  {
    [Block(lo, hi - lo - HEADER, true)]
  }

  // ----- The invariant -----

  /** The blocks follow one another from `lo` to `hi` without a gap. */
  ghost predicate Tiles(bs: seq<Block>, lo: nat, hi: nat) {
    if bs == [] then lo == hi else bs[0].addr == lo && Tiles(bs[1..], End(bs[0]), hi)
  }

  ghost predicate Coalesced(bs: seq<Block>) {
    forall i :: 0 <= i < |bs| - 1 ==> !(bs[i].free && bs[i + 1].free)
  }

  ghost predicate Aligned(bs: seq<Block>) {
    forall i :: 0 <= i < |bs| ==> bs[i].size % 4 == 0
  }

  ghost predicate Canonical(bs: seq<Block>, lo: nat, hi: nat) {
    Tiles(bs, lo, hi) && Coalesced(bs) && Aligned(bs) && bs != []
  }

  /** The blocks in use, in address order. */
  function Live(bs: seq<Block>): seq<Block> {
    if bs == [] then [] else (if bs[0].free then [] else [bs[0]]) + Live(bs[1..])
  }

  predicate IsLive(bs: seq<Block>, ptr: nat) {
    exists i :: 0 <= i < |bs| && !bs[i].free && Payload(bs[i]) == ptr
  }

  /** A live block of at least `n` bytes. */
  ghost predicate HasBlock(bs: seq<Block>, p: nat, n: nat) {
    exists i :: 0 <= i < |bs| && !bs[i].free && Payload(bs[i]) == p && n <= bs[i].size
  }

  /** Every block in use carries over, but those `released`. */
  ghost predicate Carried(bs: seq<Block>, r: seq<Block>, released: set<nat>) {
    forall p, n: nat :: HasBlock(bs, p, n) && p !in released ==> HasBlock(r, p, n)
  }

  function LivePointers(bs: seq<Block>): set<nat> {
    set i | 0 <= i < |bs| && !bs[i].free :: Payload(bs[i])
  }

  /** The block list that the live blocks alone determine: every maximal gap is one free block. */
  function Rebuild(lo: nat, hi: nat, live: seq<Block>): seq<Block>
    decreases |live|
  {
    if live == [] then (if hi < lo + HEADER then [] else Initial(lo, hi))
    else
      (if live[0].addr < lo + HEADER then [] else [Block(lo, live[0].addr - lo - HEADER, true)]) +
      [live[0]] + Rebuild(End(live[0]), hi, live[1..])
  }

  /** No live block, header included, reaches into `[x, y)`. */
  ghost predicate Clear(bs: seq<Block>, x: nat, y: nat) {
    forall i :: 0 <= i < |bs| && !bs[i].free ==> End(bs[i]) <= x || y <= bs[i].addr
  }

  /** A header and `size` bytes from `x` on are inside the heap and clear of live blocks. */
  ghost predicate Room(bs: seq<Block>, lo: nat, hi: nat, x: nat, size: nat) {
    lo <= x && x + HEADER + size <= hi && Clear(bs, x, x + HEADER + size)
  }

  // ----- Structure of a tiling -----

  lemma {:induction false} TilesAppend(a: seq<Block>, b: seq<Block>, lo: nat, mid: nat, hi: nat)
    requires Tiles(a, lo, mid) && Tiles(b, mid, hi)
    ensures Tiles(a + b, lo, hi)
  {
    if a == [] {
      assert a + b == b;
    } else {
      assert (a + b)[1..] == a[1..] + b;
      TilesAppend(a[1..], b, End(a[0]), mid, hi);
    }
  }

  lemma {:induction false} TilesSplit(bs: seq<Block>, i: nat, lo: nat, hi: nat) returns (mid: nat)
    requires i <= |bs| && Tiles(bs, lo, hi)
    ensures Tiles(bs[..i], lo, mid) && Tiles(bs[i..], mid, hi)
    ensures i < |bs| ==> mid == bs[i].addr
    ensures 0 < i ==> mid == End(bs[i - 1])
    ensures lo <= mid <= hi
  {
    if i == 0 {
      mid := lo;
      TilesOrder(bs, lo, hi);
      assert bs[0..] == bs;
    } else {
      mid := TilesSplit(bs[1..], i - 1, End(bs[0]), hi);
      assert bs[..i][1..] == bs[1..][..i - 1];
      assert bs[1..][i - 1..] == bs[i..];
    }
  }

  lemma {:induction false} TilesOrder(bs: seq<Block>, lo: nat, hi: nat)
    requires Tiles(bs, lo, hi)
    ensures lo <= hi
    ensures forall i :: 0 <= i < |bs| ==> lo <= bs[i].addr && End(bs[i]) <= hi
  {
    if bs != [] {
      TilesOrder(bs[1..], End(bs[0]), hi);
    }
  }

  /** Payloads and headers of different blocks occupy disjoint bytes, inside the heap. */
  lemma {:induction false} BlocksDisjoint(bs: seq<Block>, lo: nat, hi: nat, i: nat, j: nat)
    requires Tiles(bs, lo, hi) && i < j < |bs|
    ensures lo <= bs[i].addr && End(bs[i]) <= bs[j].addr && End(bs[j]) <= hi
  {
    var mid := TilesSplit(bs, i + 1, lo, hi);
    TilesOrder(bs, lo, hi);
    TilesOrder(bs[i + 1..], mid, hi);
    assert bs[j] == bs[i + 1..][j - i - 1];
  }

  lemma DistinctAddresses(bs: seq<Block>, lo: nat, hi: nat, i: nat, j: nat)
    requires Tiles(bs, lo, hi) && i < |bs| && j < |bs| && bs[i].addr == bs[j].addr
    ensures i == j
  {
    if i < j { BlocksDisjoint(bs, lo, hi, i, j); }
    if j < i { BlocksDisjoint(bs, lo, hi, j, i); }
  }

  lemma {:induction false} LiveAppend(a: seq<Block>, b: seq<Block>)
    ensures Live(a + b) == Live(a) + Live(b)
  {
    if a == [] {
      assert a + b == b;
    } else {
      assert (a + b)[1..] == a[1..] + b;
      LiveAppend(a[1..], b);
    }
  }

  lemma LiveAppend3(a: seq<Block>, b: seq<Block>, c: seq<Block>)
    ensures Live(a + b + c) == Live(a) + Live(b) + Live(c)
  {
    LiveAppend(a + b, c);
    LiveAppend(a, b);
  }

  lemma LiveReplace(a: seq<Block>, b: Block, p: seq<Block>, c: seq<Block>)
    requires b.free
    ensures Live(a + p + c) == Live(a) + Live(p) + Live(c)
    ensures Live(a + [b] + c) == Live(a) + Live(c)
  {
    LiveAppend3(a, p, c);
    LiveAppend3(a, [b], c);
    LiveOne(b);
    hide Live;
    assert Live(a) + [] == Live(a);
  }

  lemma LiveOne(b: Block)
    ensures Live([b]) == if b.free then [] else [b]
  {
    assert [b][1..] == [];
  }

  // ----- Canonical form -----

  /** A canonical block list is a function of its live blocks. */
  lemma {:induction false} CanonicalForm(bs: seq<Block>, lo: nat, hi: nat)
    requires Tiles(bs, lo, hi) && Coalesced(bs)
    ensures bs == Rebuild(lo, hi, Live(bs))
  {
    if bs == [] {
    } else if !bs[0].free {
      CanonicalForm(bs[1..], End(bs[0]), hi);
      TilesOrder(bs[1..], End(bs[0]), hi);
      assert Live(bs) == [bs[0]] + Live(bs[1..]);
      assert Live(bs)[1..] == Live(bs[1..]);
    } else if |bs| == 1 {
      assert Tiles(bs[1..], End(bs[0]), hi);
    } else {
      assert !bs[1].free;
      assert bs[1..][0] == bs[1] && bs[1..][1..] == bs[2..];
      assert Coalesced(bs[2..]) by {
        forall i | 0 <= i < |bs[2..]| - 1 ensures !(bs[2..][i].free && bs[2..][i + 1].free) {
          assert !(bs[i + 2].free && bs[i + 3].free);
        }
      }
      CanonicalForm(bs[2..], End(bs[1]), hi);
      assert Live(bs) == Live(bs[1..]) == [bs[1]] + Live(bs[2..]);
      assert Live(bs)[1..] == Live(bs[2..]);
      assert bs == [bs[0]] + [bs[1]] + bs[2..];
    }
  }

  lemma SameLiveSameList(a: seq<Block>, b: seq<Block>, lo: nat, hi: nat)
    requires Canonical(a, lo, hi) && Canonical(b, lo, hi) && Live(a) == Live(b)
    ensures a == b
  {
    CanonicalForm(a, lo, hi);
    CanonicalForm(b, lo, hi);
  }

  lemma {:induction false} MergeCanonical(bs: seq<Block>, lo: nat, hi: nat)
    requires Tiles(bs, lo, hi) && Aligned(bs)
    ensures Tiles(Merge(bs), lo, hi) && Coalesced(Merge(bs)) && Aligned(Merge(bs))
    ensures Live(Merge(bs)) == Live(bs)
    ensures bs != [] ==> Merge(bs) != [] && Merge(bs)[0].addr == bs[0].addr
    ensures bs != [] && !bs[0].free ==> !Merge(bs)[0].free
    decreases |bs|
  {
    if |bs| < 2 {
    } else if bs[0].free && bs[1].free {
      var joined := [Join(bs[0], bs[1])] + bs[2..];
      assert bs[1..][1..] == bs[2..] == joined[1..];
      assert Aligned(joined) by {
        forall i | 0 <= i < |joined| ensures joined[i].size % 4 == 0 {
          if i > 0 { assert joined[i] == bs[i + 1]; } else { assert bs[0].size % 4 == 0 && bs[1].size % 4 == 0; }
        }
      }
      MergeCanonical(joined, lo, hi);
      assert Live(joined) == Live(bs[2..]) == Live(bs[1..]) == Live(bs);
    } else {
      assert Aligned(bs[1..]);
      MergeCanonical(bs[1..], End(bs[0]), hi);
      var m := Merge(bs[1..]);
      var r := [bs[0]] + m;
      assert r[1..] == m;
      if bs[0].free {
        assert !bs[1..][0].free;
      }
      assert Coalesced(r) by {
        forall i | 0 <= i < |r| - 1 ensures !(r[i].free && r[i + 1].free) {
          if i > 0 { assert r[i] == m[i - 1] && r[i + 1] == m[i]; }
        }
      }
    }
  }

  // ----- Releasing a block -----

  function Without(live: seq<Block>, ptr: nat): seq<Block> {
    if live == [] then []
    else (if Payload(live[0]) == ptr then [] else [live[0]]) + Without(live[1..], ptr)
  }

  lemma {:induction false} MarkFreeEffect(bs: seq<Block>, ptr: nat, lo: nat, hi: nat)
    requires Tiles(bs, lo, hi) && Aligned(bs)
    ensures Tiles(MarkFree(bs, ptr), lo, hi) && Aligned(MarkFree(bs, ptr))
    ensures Live(MarkFree(bs, ptr)) == Without(Live(bs), ptr)
  {
    if bs != [] {
      var r := MarkFree(bs, ptr);
      assert r[1..] == MarkFree(bs[1..], ptr);
      assert Aligned(bs[1..]);
      MarkFreeEffect(bs[1..], ptr, End(bs[0]), hi);
      if !bs[0].free {
        assert Live(bs) == [bs[0]] + Live(bs[1..]);
        assert Live(bs)[1..] == Live(bs[1..]);
        assert Payload(bs[0]) != ptr ==> r[0] == bs[0];
        assert Payload(bs[0]) == ptr ==> r[0] == bs[0].(free := true);
      } else {
        assert r[0].free && Live(r) == Live(r[1..]);
        assert Live(bs) == Live(bs[1..]);
      }
    }
  }

  /** Releasing keeps the list canonical and removes exactly the released block from the live ones. */
  lemma FreeEffect(bs: seq<Block>, ptr: nat, lo: nat, hi: nat)
    requires Canonical(bs, lo, hi)
    ensures Canonical(Free(bs, ptr), lo, hi)
    ensures Live(Free(bs, ptr)) == if ptr == 0 then Live(bs) else Without(Live(bs), ptr)
  {
    if ptr != 0 {
      MarkFreeEffect(bs, ptr, lo, hi);
      MergeCanonical(MarkFree(bs, ptr), lo, hi);
    }
  }

  function WithoutAll(live: seq<Block>, ptrs: set<nat>): seq<Block> {
    if live == [] then []
    else (if Payload(live[0]) in ptrs then [] else [live[0]]) + WithoutAll(live[1..], ptrs)
  }

  lemma {:induction false} WithoutTwice(live: seq<Block>, ptr: nat, ptrs: set<nat>)
    ensures WithoutAll(Without(live, ptr), ptrs) == WithoutAll(live, {ptr} + ptrs)
  {
    if live != [] {
      WithoutTwice(live[1..], ptr, ptrs);
      var w := Without(live, ptr);
      if Payload(live[0]) != ptr {
        assert w[0] == live[0] && w[1..] == Without(live[1..], ptr);
      } else {
        assert w == Without(live[1..], ptr);
      }
    }
  }

  lemma {:induction false} WithoutNone(live: seq<Block>)
    ensures WithoutAll(live, {}) == live
  {
    if live != [] { WithoutNone(live[1..]); }
  }

  lemma {:induction false} FreeAllEffect(bs: seq<Block>, ptrs: seq<nat>, lo: nat, hi: nat)
    requires Canonical(bs, lo, hi) && 0 !in ptrs
    ensures Canonical(FreeAll(bs, ptrs), lo, hi)
    ensures Live(FreeAll(bs, ptrs)) == WithoutAll(Live(bs), Elements(ptrs))
    decreases |ptrs|
  {
    if ptrs == [] {
      assert Elements(ptrs) == {};
      WithoutNone(Live(bs));
    } else {
      FreeEffect(bs, ptrs[0], lo, hi);
      FreeAllEffect(Free(bs, ptrs[0]), ptrs[1..], lo, hi);
      WithoutTwice(Live(bs), ptrs[0], Elements(ptrs[1..]));
      assert Elements(ptrs) == {ptrs[0]} + Elements(ptrs[1..]) by {
        assert ptrs == [ptrs[0]] + ptrs[1..];
      }
    }
  }

  /** The order in which a set of blocks is released does not show in the block list. */
  lemma FreesCommute(bs: seq<Block>, p: seq<nat>, q: seq<nat>, lo: nat, hi: nat)
    requires Canonical(bs, lo, hi) && 0 !in p && multiset(p) == multiset(q)
    ensures FreeAll(bs, p) == FreeAll(bs, q)
  {
    forall x ensures x in p <==> x in q {
      assert x in multiset(p) <==> x in multiset(q);
    }
    assert Elements(p) == Elements(q);
    FreeAllEffect(bs, p, lo, hi);
    FreeAllEffect(bs, q, lo, hi);
    SameLiveSameList(FreeAll(bs, p), FreeAll(bs, q), lo, hi);
  }

  lemma {:induction false} WithoutEvery(live: seq<Block>, ptrs: set<nat>)
    requires forall b :: b in live ==> Payload(b) in ptrs
    ensures WithoutAll(live, ptrs) == []
  {
    if live != [] { WithoutEvery(live[1..], ptrs); }
  }

  lemma {:induction false} LiveMembers(bs: seq<Block>)
    ensures forall b :: b in Live(bs) <==> b in bs && !b.free
  {
    if bs != [] {
      LiveMembers(bs[1..]);
      assert bs == [bs[0]] + bs[1..];
    }
  }

  /** Releasing everything gives back the heap that `mm_init` made. */
  lemma FreeEverything(bs: seq<Block>, ptrs: seq<nat>, lo: nat, hi: nat)
    requires Canonical(bs, lo, hi) && 0 !in ptrs
    requires forall p :: IsLive(bs, p) ==> p in ptrs
    ensures lo + HEADER <= hi && FreeAll(bs, ptrs) == Initial(lo, hi)
  {
    FreeAllEffect(bs, ptrs, lo, hi);
    LiveMembers(bs);
    forall b | b in Live(bs) ensures Payload(b) in Elements(ptrs) {
      assert IsLive(bs, Payload(b));
    }
    WithoutEvery(Live(bs), Elements(ptrs));
    CanonicalForm(FreeAll(bs, ptrs), lo, hi);
  }

  // ----- Allocating -----

  lemma PiecesEffect(b: Block, size: nat)
    requires Fits(b, size) && b.size % 4 == 0 && size % 4 == 0
    ensures Tiles(Pieces(b, size), b.addr, End(b)) && Aligned(Pieces(b, size))
    ensures Live(Pieces(b, size)) == [Pieces(b, size)[0]]
  {
    var p := Pieces(b, size);
    if |p| == 2 {
      assert p[1..] == [p[1]] && p[1..][1..] == [];
      assert Live(p[1..]) == Live(p[1..][1..]) == [];
    } else {
      assert p[1..] == [];
    }
  }

  lemma CarveTiles(bs: seq<Block>, i: nat, size: nat, lo: nat, hi: nat)
    requires Canonical(bs, lo, hi) && i < |bs| && Fits(bs[i], size) && size % 4 == 0
    ensures Tiles(Carve(bs, i, size), lo, hi)
  {
    var mid := TilesSplit(bs, i, lo, hi);
    var rest := TilesSplit(bs, i + 1, lo, hi);
    PiecesEffect(bs[i], size);
    TilesAppend(bs[..i], Pieces(bs[i], size), lo, mid, rest);
    TilesAppend(bs[..i] + Pieces(bs[i], size), bs[i + 1..], lo, rest, hi);
  }

  lemma SplitAround(bs: seq<Block>, i: nat)
    requires i < |bs|
    ensures bs == bs[..i] + [bs[i]] + bs[i + 1..]
  {}

  lemma CarveLive(bs: seq<Block>, i: nat, size: nat)
    requires i < |bs| && Fits(bs[i], size) && size % 4 == 0 && bs[i].size % 4 == 0
    ensures Live(Carve(bs, i, size)) == Live(bs[..i]) + [Pieces(bs[i], size)[0]] + Live(bs[i + 1..])
    ensures Live(bs) == Live(bs[..i]) + Live(bs[i + 1..])
  {
    PiecesEffect(bs[i], size);
    var a, b, c := bs[..i], bs[i], bs[i + 1..];
    LiveReplace(a, b, Pieces(b, size), c);
    SplitAround(bs, i);
  }

  lemma CarveEffect(bs: seq<Block>, i: nat, size: nat, lo: nat, hi: nat)
    requires Canonical(bs, lo, hi) && i < |bs| && Fits(bs[i], size) && size % 4 == 0
    ensures Canonical(Carve(bs, i, size), lo, hi)
    ensures i < |Carve(bs, i, size)|
    ensures var b := Carve(bs, i, size)[i];
      b.addr == bs[i].addr && !b.free && size <= b.size < size + HEADER + MIN_REMAINDER
    ensures Live(Carve(bs, i, size)) == Live(bs[..i]) + [Carve(bs, i, size)[i]] + Live(bs[i + 1..])
    ensures Live(bs) == Live(bs[..i]) + Live(bs[i + 1..])
  {
    CarveTiles(bs, i, size, lo, hi);
    assert bs[i].size % 4 == 0;
    CarveLive(bs, i, size);
    PiecesEffect(bs[i], size);
    CarveCoalesced(bs, i, size);
    CarveAligned(bs, i, size);
    CarveAt(bs, i, size);
  }

  /** The carved list, block by block. */
  lemma CarveAt(bs: seq<Block>, i: nat, size: nat)
    requires i < |bs| && bs[i].size >= size
    ensures var r, p := Carve(bs, i, size), Pieces(bs[i], size);
      |r| == |bs| - 1 + |p| && 1 <= |p| <= 2 &&
      forall k :: 0 <= k < |r| ==> r[k] == if k < i then bs[k] else if k < i + |p| then p[k - i] else bs[k - |p| + 1]
  {}

  lemma CarveCoalesced(bs: seq<Block>, i: nat, size: nat)
    requires Coalesced(bs) && i < |bs| && Fits(bs[i], size)
    ensures Coalesced(Carve(bs, i, size))
  {
    CarveAt(bs, i, size);
    hide Carve;
    var r, n := Carve(bs, i, size), |Pieces(bs[i], size)|;
    forall k | 0 <= k < |r| - 1 ensures !(r[k].free && r[k + 1].free) {
      if k + 1 < i {
        assert !(bs[k].free && bs[k + 1].free);
      } else if k >= i + n {
        assert !(bs[k - n + 1].free && bs[k - n + 2].free);
      } else if k + 1 == i + n && n == 2 {
        assert !(bs[i].free && bs[i + 1].free);
      }
    }
  }

  lemma CarveAligned(bs: seq<Block>, i: nat, size: nat)
    requires Aligned(bs) && i < |bs| && Fits(bs[i], size) && size % 4 == 0
    ensures Aligned(Carve(bs, i, size))
  {
    CarveAt(bs, i, size);
    PiecesEffect(bs[i], size);
  }

  lemma RoundUpAligned(request: nat)
    ensures RoundUp(request) % 4 == 0
  {}

  /** The rounding wraps in 32 bits: a request is covered by its rounded size exactly when it is at
      most 0xFFFF_FFFC. */
  lemma RoundUpCovers(request: nat)
    requires request < WORD
    ensures RoundUp(request) >= request <==> request <= 0xFFFF_FFFC
    ensures request > 0xFFFF_FFFC ==> RoundUp(request) == 0
    ensures request <= 0xFFFF_FFFC ==> RoundUp(request) < request + 4
  {}

  lemma PointersGrow(bs: seq<Block>, r: seq<Block>, left: seq<Block>, b: Block, right: seq<Block>)
    requires Live(bs) == left + right && Live(r) == left + [b] + right
    ensures LivePointers(r) == LivePointers(bs) + {Payload(b)}
  {
    forall p ensures p in LivePointers(r) <==> p in LivePointers(bs) || p == Payload(b) {
      PointersOfLive(bs, p);
      PointersOfLive(r, p);
      assert forall c :: c in Live(r) <==> c in left || c == b || c in right;
      assert forall c :: c in Live(bs) <==> c in left || c in right;
    }
  }

  /** What allocation does to the live blocks: nothing, or one more block of the requested size. */
  lemma AllocEffect(bs: seq<Block>, request: nat, lo: nat, hi: nat)
    requires Canonical(bs, lo, hi) && 0 < lo
    ensures Canonical(Alloc(bs, request).blocks, lo, hi)
    ensures var a := Alloc(bs, request);
      if a.ptr == 0 then a.blocks == bs
      else !IsLive(bs, a.ptr) && IsLive(a.blocks, a.ptr) && LivePointers(a.blocks) == LivePointers(bs) + {a.ptr} &&
           exists b :: b in a.blocks && Payload(b) == a.ptr && RoundUp(request) <= b.size &&
                       lo <= b.addr && End(b) <= hi
  {
    var size := RoundUp(request);
    RoundUpAligned(request);
    var i := FirstFit(bs, size);
    if i < |bs| {
      CarveEffect(bs, i, size, lo, hi);
      var r := Carve(bs, i, size);
      TilesOrder(r, lo, hi);
      TilesOrder(bs, lo, hi);
      if IsLive(bs, Payload(bs[i])) {
        var k :| 0 <= k < |bs| && !bs[k].free && Payload(bs[k]) == Payload(bs[i]);
        DistinctAddresses(bs, lo, hi, i, k);
      }
      PointersGrow(bs, r, Live(bs[..i]), r[i], Live(bs[i + 1..]));
      assert r[i] in r;
    }
  }

  /** `c` is the lowest free block of at least `size` bytes. */
  ghost predicate Lowest(bs: seq<Block>, size: nat, c: Block) {
    c in bs && c.free && c.size >= size && forall b :: b in bs && b.free && b.size >= size ==> c.addr <= b.addr
  }

  /** `r` is `bs` with `c` taken. What `c` has over `size` becomes a free block of its own as soon as it
      amounts to a 12-byte header and 16 bytes more. */
  ghost predicate Taken(bs: seq<Block>, c: Block, size: nat, r: seq<Block>) {
    forall b :: b in r <==>
      (b in bs && b != c) ||
      (if c.size < size + 12 + 16 then b == Block(c.addr, c.size, false)
       else b == Block(c.addr, size, false) || b == Block(c.addr + 12 + size, c.size - size - 12, true))
  }

  /** Which block an allocation takes and what it leaves of it: always the lowest that is large enough, and
      there is none exactly when it returns null. */
  lemma AllocExactly(bs: seq<Block>, request: nat, lo: nat, hi: nat)
    requires Canonical(bs, lo, hi) && 0 < lo
    ensures var a, size := Alloc(bs, request), RoundUp(request);
      if a.ptr == 0 then a.blocks == bs && forall b :: b in bs && b.free ==> b.size < size
      else exists c :: Lowest(bs, size, c) && a.ptr == c.addr + 12 && Taken(bs, c, size, a.blocks)
  {
    hide Carve, Pieces, Tiles;
    var size := RoundUp(request);
    var i := FirstFit(bs, size);
    if i < |bs| {
      hide FirstFit;
      FirstIsLowest(bs, size, i, lo, hi);
      CarveTakes(bs, i, size, lo, hi);
    } else {
      assert forall b :: b in bs ==> exists k :: 0 <= k < |bs| && bs[k] == b;
    }
  }

  lemma FirstIsLowest(bs: seq<Block>, size: nat, i: nat, lo: nat, hi: nat)
    requires Tiles(bs, lo, hi) && i < |bs| && Fits(bs[i], size) && forall j :: 0 <= j < i ==> !Fits(bs[j], size)
    ensures Lowest(bs, size, bs[i])
  {
    forall b | b in bs && b.free && b.size >= size ensures bs[i].addr <= b.addr {
      var j :| 0 <= j < |bs| && bs[j] == b;
      if i < j { BlocksDisjoint(bs, lo, hi, i, j); }
    }
  }

  lemma CarveTakes(bs: seq<Block>, i: nat, size: nat, lo: nat, hi: nat)
    requires Tiles(bs, lo, hi) && i < |bs| && Fits(bs[i], size)
    ensures Taken(bs, bs[i], size, Carve(bs, i, size))
  {
    CarveAt(bs, i, size);
    hide Carve;
    var r, c, n := Carve(bs, i, size), bs[i], |Pieces(bs[i], size)|;
    forall b | b in bs && b != c ensures b in r {
      var k :| 0 <= k < |bs| && bs[k] == b;
      assert r[if k < i then k else k + n - 1] == b;
    }
    forall b | b in r ensures b in Pieces(c, size) || (b in bs && b != c) {
      var k :| 0 <= k < |r| && r[k] == b;
      if k < i || k >= i + n {
        var j := if k < i then k else k - n + 1;
        if bs[j] == c { DistinctAddresses(bs, lo, hi, i, j); }
      }
    }
    forall b | b in Pieces(c, size) ensures b in r {
      var k :| 0 <= k < n && Pieces(c, size)[k] == b;
      assert r[i + k] == b;
    }
  }

  /** Allocating leaves every block in use as it is. */
  lemma LiveBlocksKept(bs: seq<Block>, request: nat, b: Block, lo: nat, hi: nat)
    requires Canonical(bs, lo, hi) && 0 < lo && b in Live(bs)
    ensures b in Live(Alloc(bs, request).blocks) && Payload(b) != Alloc(bs, request).ptr
  {
    var size := RoundUp(request);
    RoundUpAligned(request);
    var i := FirstFit(bs, size);
    LiveMembers(bs);
    if i < |bs| {
      CarveEffect(bs, i, size, lo, hi);
      OthersElsewhere(bs, i, lo, hi);
    } else {
      TilesOrder(bs, lo, hi);
    }
  }

  lemma PointersOfLive(bs: seq<Block>, p: nat)
    ensures p in LivePointers(bs) <==> exists b :: b in Live(bs) && Payload(b) == p
    ensures p in LivePointers(bs) <==> IsLive(bs, p)
  {}

  /** Releasing a live block removes its pointer, and no other, from the live ones. */
  lemma FreePointers(bs: seq<Block>, ptr: nat, lo: nat, hi: nat)
    requires Canonical(bs, lo, hi) && ptr != 0
    ensures LivePointers(Free(bs, ptr)) == LivePointers(bs) - {ptr}
  {
    FreeEffect(bs, ptr, lo, hi);
    forall p ensures p in LivePointers(Free(bs, ptr)) <==> p in LivePointers(bs) && p != ptr {
      PointersOfLive(bs, p);
      PointersOfLive(Free(bs, ptr), p);
      WithoutMembers(Live(bs), ptr);
    }
  }

  /** Releasing one block leaves every other block in use as it is. */
  lemma FreeKeepsBlock(bs: seq<Block>, ptr: nat, b: Block, lo: nat, hi: nat)
    requires Canonical(bs, lo, hi) && b in Live(bs) && Payload(b) != ptr
    ensures b in Live(Free(bs, ptr))
  {
    FreeEffect(bs, ptr, lo, hi);
    WithoutMembers(Live(bs), ptr);
  }

  lemma {:induction false} WithoutMembers(live: seq<Block>, ptr: nat)
    ensures forall b :: b in Without(live, ptr) <==> b in live && Payload(b) != ptr
  {
    if live != [] {
      WithoutMembers(live[1..], ptr);
      assert live == [live[0]] + live[1..];
    }
  }

  lemma {:induction false} WithoutAbsent(live: seq<Block>, ptr: nat)
    requires forall b :: b in live ==> Payload(b) != ptr
    ensures Without(live, ptr) == live
  {
    if live != [] { WithoutAbsent(live[1..], ptr); }
  }

  lemma OthersElsewhere(bs: seq<Block>, i: nat, lo: nat, hi: nat)
    requires Tiles(bs, lo, hi) && i < |bs| && bs[i].free
    ensures forall b :: b in Live(bs) ==> Payload(b) != Payload(bs[i])
  {
    LiveMembers(bs);
    forall b | b in Live(bs) ensures Payload(b) != Payload(bs[i]) {
      var k :| 0 <= k < |bs| && bs[k] == b;
      if Payload(b) == Payload(bs[i]) { DistinctAddresses(bs, lo, hi, i, k); }
    }
  }

  lemma {:induction false} WithoutMiddle(left: seq<Block>, mine: Block, right: seq<Block>)
    requires forall b :: b in left || b in right ==> Payload(b) != Payload(mine)
    ensures Without(left + [mine] + right, Payload(mine)) == left + right
  {
    var all := left + [mine] + right;
    if left == [] {
      assert all[1..] == right;
      WithoutAbsent(right, Payload(mine));
    } else {
      assert all[1..] == left[1..] + [mine] + right;
      WithoutMiddle(left[1..], mine, right);
    }
  }

  lemma CarveThenWithout(bs: seq<Block>, i: nat, size: nat, lo: nat, hi: nat)
    requires Canonical(bs, lo, hi) && i < |bs| && Fits(bs[i], size) && size % 4 == 0
    ensures Without(Live(Carve(bs, i, size)), Payload(bs[i])) == Live(bs)
  {
    CarveEffect(bs, i, size, lo, hi);
    OthersElsewhere(bs, i, lo, hi);
    WithoutMiddle(Live(bs[..i]), Carve(bs, i, size)[i], Live(bs[i + 1..]));
  }

  /** Allocating and releasing the result restores the block list exactly. */
  lemma AllocFreeRestores(bs: seq<Block>, request: nat, lo: nat, hi: nat)
    requires Canonical(bs, lo, hi) && 0 < lo
    ensures var a := Alloc(bs, request); Free(a.blocks, a.ptr) == bs
  {
    var a := Alloc(bs, request);
    if a.ptr != 0 {
      RoundUpAligned(request);
      var size := RoundUp(request);
      var i := FirstFit(bs, size);
      CarveEffect(bs, i, size, lo, hi);
      CarveThenWithout(bs, i, size, lo, hi);
      FreeEffect(a.blocks, a.ptr, lo, hi);
      SameLiveSameList(Free(a.blocks, a.ptr), bs, lo, hi);
    }
  }

  // ----- Blocks by pointer and size -----

  lemma BlockOf(bs: seq<Block>, p: nat, n: nat) returns (b: Block)
    requires HasBlock(bs, p, n)
    ensures b in Live(bs) && Payload(b) == p && n <= b.size
  {
    var i :| 0 <= i < |bs| && !bs[i].free && Payload(bs[i]) == p && n <= bs[i].size;
    b := bs[i];
    LiveMembers(bs);
  }

  lemma IsBlock(bs: seq<Block>, b: Block, n: nat)
    requires b in Live(bs) && n <= b.size
    ensures HasBlock(bs, Payload(b), n)
  {
    LiveMembers(bs);
    var i :| 0 <= i < |bs| && bs[i] == b;
  }

  lemma BlockIsLive(bs: seq<Block>, p: nat, n: nat)
    requires HasBlock(bs, p, n)
    ensures IsLive(bs, p) && p in LivePointers(bs)
  {}

  /** Different blocks are at different places. */
  lemma BlocksApart(bs: seq<Block>, p: nat, m: nat, q: nat, n: nat, lo: nat, hi: nat)
    requires Tiles(bs, lo, hi) && HasBlock(bs, p, m) && HasBlock(bs, q, n) && p != q
    ensures p + m + HEADER <= q || q + n + HEADER <= p
  {
    var i :| 0 <= i < |bs| && !bs[i].free && Payload(bs[i]) == p && m <= bs[i].size;
    var j :| 0 <= j < |bs| && !bs[j].free && Payload(bs[j]) == q && n <= bs[j].size;
    if i < j { BlocksDisjoint(bs, lo, hi, i, j); } else { BlocksDisjoint(bs, lo, hi, j, i); }
  }

  /** A block's payload is inside the heap, past its header. */
  lemma BlockInside(bs: seq<Block>, p: nat, n: nat, lo: nat, hi: nat)
    requires Tiles(bs, lo, hi) && HasBlock(bs, p, n)
    ensures lo + HEADER <= p && p + n <= hi
  {
    TilesOrder(bs, lo, hi);
  }

  /** An allocation returns a new block of at least the rounded size and carries every other over. */
  lemma AllocBlocks(bs: seq<Block>, request: nat, lo: nat, hi: nat)
    requires Canonical(bs, lo, hi) && 0 < lo
    ensures var a := Alloc(bs, request);
      Carried(bs, a.blocks, {}) && (a.ptr != 0 ==> HasBlock(a.blocks, a.ptr, RoundUp(request)))
    ensures forall n: nat :: Alloc(bs, request).ptr != 0 ==> !HasBlock(bs, Alloc(bs, request).ptr, n)
  {
    hide Alloc, HasBlock, LivePointers, Canonical;
    var a := Alloc(bs, request);
    AllocEffect(bs, request, lo, hi);
    forall p, n: nat | HasBlock(bs, p, n) ensures HasBlock(a.blocks, p, n) && p != a.ptr {
      var b := BlockOf(bs, p, n);
      LiveBlocksKept(bs, request, b, lo, hi);
      IsBlock(a.blocks, b, n);
    }
    if a.ptr != 0 {
      var b :| b in a.blocks && Payload(b) == a.ptr && RoundUp(request) <= b.size && lo <= b.addr && End(b) <= hi;
      LiveOfPointer(a.blocks, b, lo, hi);
      IsBlock(a.blocks, b, RoundUp(request));
    }
  }

  lemma LiveOfPointer(bs: seq<Block>, b: Block, lo: nat, hi: nat)
    requires Canonical(bs, lo, hi) && IsLive(bs, Payload(b)) && b in bs
    ensures b in Live(bs)
  {
    var k :| 0 <= k < |bs| && !bs[k].free && Payload(bs[k]) == Payload(b);
    var j :| 0 <= j < |bs| && bs[j] == b;
    DistinctAddresses(bs, lo, hi, k, j);
    LiveMembers(bs);
  }

  /** A release carries every other block over. */
  lemma FreeBlocks(bs: seq<Block>, ptr: nat, lo: nat, hi: nat)
    requires Canonical(bs, lo, hi)
    ensures Carried(bs, Free(bs, ptr), {ptr})
  {
    hide Free, HasBlock, Canonical;
    forall p, n: nat | HasBlock(bs, p, n) && p != ptr ensures HasBlock(Free(bs, ptr), p, n) {
      var b := BlockOf(bs, p, n);
      FreeKeepsBlock(bs, ptr, b, lo, hi);
      IsBlock(Free(bs, ptr), b, n);
    }
  }

  lemma ClearStopsAtNext(bs: seq<Block>, lo: nat, hi: nat, x: nat, y: nat)
    requires Tiles(bs, lo, hi) && Coalesced(bs) && lo <= x < y <= hi && Clear(bs, x, y)
    requires bs != [] && bs[0].free && x < End(bs[0])
    ensures y <= End(bs[0])
  {}

  /** Bytes that no live block covers lie inside one free block. */
  lemma {:induction false} ClearRunInsideOneBlock(bs: seq<Block>, lo: nat, hi: nat, x: nat, y: nat) returns (i: nat)
    requires Tiles(bs, lo, hi) && Coalesced(bs) && lo <= x < y <= hi && Clear(bs, x, y)
    ensures i < |bs| && bs[i].free && bs[i].addr <= x && y <= End(bs[i])
  {
    if x < End(bs[0]) {
      i := 0;
      assert bs[0].free;
      if End(bs[0]) < y {
        ClearStopsAtNext(bs, lo, hi, x, y);
        assert false;
      }
    } else {
      assert forall k :: 0 <= k < |bs[1..]| ==> bs[1..][k] == bs[k + 1];
      var k := ClearRunInsideOneBlock(bs[1..], End(bs[0]), hi, x, y);
      i := k + 1;
    }
  }

  /** Allocation fails exactly when no run of bytes free of live blocks could hold a header and the
      rounded request: nothing is lost to fragmentation of free space. */
  lemma AllocFailsExactly(bs: seq<Block>, request: nat, lo: nat, hi: nat)
    requires Canonical(bs, lo, hi) && 0 < lo
    ensures Alloc(bs, request).ptr == 0 <==> !exists x :: Room(bs, lo, hi, x, RoundUp(request))
  {
    var size := RoundUp(request);
    var i := FirstFit(bs, size);
    if i < |bs| {
      var x := bs[i].addr;
      TilesOrder(bs, lo, hi);
      forall k | 0 <= k < |bs| && !bs[k].free ensures End(bs[k]) <= x || x + HEADER + size <= bs[k].addr {
        if k < i { BlocksDisjoint(bs, lo, hi, k, i); } else { BlocksDisjoint(bs, lo, hi, i, k); }
      }
      assert Room(bs, lo, hi, x, size);
    } else {
      forall x: nat ensures !Room(bs, lo, hi, x, size) {
        if Room(bs, lo, hi, x, size) {
          var k := ClearRunInsideOneBlock(bs, lo, hi, x, x + HEADER + size);
          assert Fits(bs[k], size);
          assert false;
        }
      }
    }
  }

  // ----- Whole runs -----

  datatype Request = Allocate(size: nat) | Release(ptr: nat)

  function Serve(bs: seq<Block>, r: Request): seq<Block> {
    match r
    case Allocate(size) => Alloc(bs, size).blocks
    case Release(ptr) => Free(bs, ptr)
  }

  function Run(bs: seq<Block>, rs: seq<Request>): seq<Block>
    decreases |rs|
  {
    if rs == [] then bs else Run(Serve(bs, rs[0]), rs[1..])
  }

  /** Every release in the run names a block that is live at that moment, or null. */
  ghost predicate Legal(bs: seq<Block>, rs: seq<Request>)
    decreases |rs|
  {
    rs == [] || ((rs[0].Release? ==> rs[0].ptr == 0 || IsLive(bs, rs[0].ptr)) && Legal(Serve(bs, rs[0]), rs[1..]))
  }

  /** After any run from `mm_init`, the list is the canonical one for the blocks then live. */
  lemma {:induction false} EveryRunCanonical(bs: seq<Block>, rs: seq<Request>, lo: nat, hi: nat)
    requires Canonical(bs, lo, hi) && 0 < lo && Legal(bs, rs)
    ensures Canonical(Run(bs, rs), lo, hi)
    ensures Run(bs, rs) == Rebuild(lo, hi, Live(Run(bs, rs)))
    decreases |rs|
  {
    if rs == [] {
      CanonicalForm(bs, lo, hi);
    } else {
      match rs[0] {
        case Allocate(size) => AllocEffect(bs, size, lo, hi);
        case Release(ptr) => FreeEffect(bs, ptr, lo, hi);
      }
      EveryRunCanonical(Serve(bs, rs[0]), rs[1..], lo, hi);
    }
  }

  // ----- The list as the kernel keeps it -----

  /** A `block_hdr`; `next == 0` ends the list. */
  datatype Header = Header(size: nat, free: bool, next: nat)

  type HeaderRam = map<nat, Header>

  ghost predicate HeaderAt(ram: HeaderRam, bs: seq<Block>, i: nat)
    requires i < |bs|
  {
    bs[i].addr in ram &&
    ram[bs[i].addr] == Header(bs[i].size, bs[i].free, AddressOf(bs, i + 1))
  }

  /** The headers reachable from the head are `bs`, linked in order. */
  ghost predicate Linked(ram: HeaderRam, bs: seq<Block>) {
    forall i :: 0 <= i < |bs| ==> HeaderAt(ram, bs, i)
  }

  /** Carving without a remainder takes one header write. */
  lemma TakeLinked(ram: HeaderRam, bs: seq<Block>, i: nat, lo: nat, hi: nat)
    requires Tiles(bs, lo, hi) && Linked(ram, bs) && i < |bs|
    ensures bs[i].addr in ram
    ensures Linked(ram[bs[i].addr := ram[bs[i].addr].(free := false)], bs[..i] + [bs[i].(free := false)] + bs[i + 1..])
  {
    assert HeaderAt(ram, bs, i);
    var r := bs[..i] + [bs[i].(free := false)] + bs[i + 1..];
    var ram' := ram[bs[i].addr := ram[bs[i].addr].(free := false)];
    assert forall k :: 0 <= k < |r| ==> r[k] == if k == i then bs[i].(free := false) else bs[k];
    forall k | 0 <= k < |r| ensures HeaderAt(ram', r, k) {
      assert HeaderAt(ram, bs, k);
      if bs[k].addr == bs[i].addr { DistinctAddresses(bs, lo, hi, k, i); }
    }
  }

  /** Carving with a remainder writes a second header. */
  lemma SplitLinked(ram: HeaderRam, bs: seq<Block>, i: nat, p: Block, q: Block, lo: nat, hi: nat)
    requires Linked(ram, bs) && i < |bs| && p.addr == bs[i].addr
    requires Tiles(bs, lo, hi) && Tiles(bs[..i] + [p, q] + bs[i + 1..], lo, hi)
    ensures bs[i].addr in ram
    ensures Linked(ram[q.addr := Header(q.size, q.free, ram[bs[i].addr].next)]
                      [p.addr := Header(p.size, p.free, q.addr)],
                   bs[..i] + [p, q] + bs[i + 1..])
  {
    assert HeaderAt(ram, bs, i);
    var r := bs[..i] + [p, q] + bs[i + 1..];
    var ram' := ram[q.addr := Header(q.size, q.free, ram[bs[i].addr].next)][p.addr := Header(p.size, p.free, q.addr)];
    assert forall k :: 0 <= k < |r| ==>
      r[k] == if k < i then bs[k] else if k == i then p else if k == i + 1 then q else bs[k - 1];
    BlocksDisjoint(r, lo, hi, i, i + 1);
    forall k | 0 <= k < |r| ensures HeaderAt(ram', r, k) {
      if k < i || k > i + 1 {
        assert HeaderAt(ram, bs, if k < i then k else k - 1);
        if r[k].addr == p.addr { DistinctAddresses(r, lo, hi, k, i); }
        if r[k].addr == q.addr { DistinctAddresses(r, lo, hi, k, i + 1); }
      }
    }
  }

  lemma MarkLinked(ram: HeaderRam, bs: seq<Block>, i: nat, lo: nat, hi: nat)
    requires Tiles(bs, lo, hi) && Linked(ram, bs) && i < |bs|
    ensures bs[i].addr in ram
    ensures Linked(ram[bs[i].addr := ram[bs[i].addr].(free := true)], MarkFree(bs, Payload(bs[i])))
  {
    var r := MarkFree(bs, Payload(bs[i]));
    assert HeaderAt(ram, bs, i);
    var ram' := ram[bs[i].addr := ram[bs[i].addr].(free := true)];
    forall k | 0 <= k < |r| ensures HeaderAt(ram', r, k) {
      assert HeaderAt(ram, bs, k);
      if k + 1 < |bs| { assert r[k + 1].addr == bs[k + 1].addr; }
      if bs[k].addr == bs[i].addr { DistinctAddresses(bs, lo, hi, k, i); }
    }
  }

  function Absorb(rest: seq<Block>): seq<Block>
    requires |rest| > 1
  {
    [Join(rest[0], rest[1])] + rest[2..]
  }

  /** One write, past the absorbed header, links the list in which the first two of `rest` are joined. */
  lemma AbsorbLinked(ram: HeaderRam, done: seq<Block>, rest: seq<Block>, lo: nat, hi: nat)
    requires |rest| > 1 && Tiles(done + rest, lo, hi) && Linked(ram, done + rest)
    ensures rest[0].addr in ram && rest[1].addr in ram
    ensures var h, n := ram[rest[0].addr], ram[rest[1].addr];
      Linked(ram[rest[0].addr := Header(h.size + HEADER + n.size, h.free, n.next)], done + Absorb(rest))
    ensures Tiles(done + Absorb(rest), lo, hi)
  {
    var all, r, d := done + rest, done + Absorb(rest), |done|;
    assert all[d] == rest[0] && all[d + 1] == rest[1];
    assert HeaderAt(ram, all, d) && HeaderAt(ram, all, d + 1);
    var h, n := ram[rest[0].addr], ram[rest[1].addr];
    var ram' := ram[rest[0].addr := Header(h.size + HEADER + n.size, h.free, n.next)];
    assert forall k :: 0 <= k < |r| ==>
      r[k] == if k < d then all[k] else if k == d then Join(all[d], all[d + 1]) else all[k + 1];
    forall k | 0 <= k < |r| ensures HeaderAt(ram', r, k) {
      var j := if k <= d then k else k + 1;
      assert HeaderAt(ram, all, j);
      if k != d && all[j].addr == all[d].addr { DistinctAddresses(all, lo, hi, j, d); }
    }
    AbsorbTiles(done, rest, lo, hi);
  }

  lemma AbsorbTiles(done: seq<Block>, rest: seq<Block>, lo: nat, hi: nat)
    requires |rest| > 1 && Tiles(done + rest, lo, hi)
    ensures Tiles(done + Absorb(rest), lo, hi)
  {
    var mid := TilesSplit(done + rest, |done|, lo, hi);
    assert (done + rest)[..|done|] == done && (done + rest)[|done|..] == rest;
    assert Absorb(rest)[1..] == rest[2..] == rest[1..][1..];
    TilesAppend(done, Absorb(rest), lo, mid, hi);
  }

  function AddressOf(bs: seq<Block>, i: nat): nat { if i < |bs| then bs[i].addr else 0 }

  lemma AddressNonZero(bs: seq<Block>, i: nat, lo: nat, hi: nat)
    requires Tiles(bs, lo, hi) && 0 < lo
    ensures AddressOf(bs, i) != 0 <==> i < |bs|
  {
    TilesOrder(bs, lo, hi);
  }

  lemma RestLinked(ram: HeaderRam, done: seq<Block>, rest: seq<Block>)
    requires Linked(ram, done + rest) && rest != []
    ensures HeaderAt(ram, rest, 0) && (|rest| > 1 ==> HeaderAt(ram, rest, 1))
    ensures AddressOf(done + rest, |done|) == AddressOf(rest, 0)
    ensures AddressOf(done + rest, |done| + 1) == AddressOf(rest, 1)
  {
    var all := done + rest;
    assert forall k :: |done| <= k < |all| ==> all[k] == rest[k - |done|];
    assert HeaderAt(ram, all, |done|);
    if |rest| > 1 { assert HeaderAt(ram, all, |done| + 1); }
  }

  lemma InTheHeap(bs: seq<Block>, i: nat, lo: nat, hi: nat)
    requires Tiles(bs, lo, hi) && i < |bs|
    ensures lo <= bs[i].addr && End(bs[i]) <= hi
  {
    TilesOrder(bs, lo, hi);
  }

  lemma WrapsNot(x: nat)
    requires x < WORD
    ensures U32(x) == x
  {}

  class KernelHeap {
    const start: nat
    const limit: nat
    var ram: map<nat, Header>      // the headers, by address
    ghost var blocks: seq<Block>

    ghost predicate Valid()
      reads this
    {
      0 < start && limit <= SRAM_END && Canonical(blocks, start, limit) && Linked(ram, blocks)
    }

    constructor (heapStart: nat, heapEnd: nat)
      requires 0 < heapStart && heapStart + HEADER <= heapEnd <= SRAM_END
      requires heapStart % 4 == 0 && heapEnd % 4 == 0
      ensures Valid() && start == heapStart && limit == heapEnd
      ensures blocks == [Block(heapStart, heapEnd - heapStart - 12, true)] == Initial(heapStart, heapEnd)
    {
      start, limit := heapStart, heapEnd;
      ram := map[heapStart := Header(heapEnd - heapStart - HEADER, true, 0)];
      blocks := Initial(heapStart, heapEnd);
      new;
      assert blocks[1..] == [];
    }

    method Allocate(request: nat) returns (ptr: nat)
      requires Valid() && request < WORD
      modifies this
      ensures Valid()
      ensures blocks == Alloc(old(blocks), request).blocks && ptr == Alloc(old(blocks), request).ptr
    {
      var size := U32(request + 3) / 4 * 4;
      var b := start;
      ghost var i := 0;
      while b != 0
        invariant i <= |blocks| && b == AddressOf(blocks, i)
        invariant Valid() && unchanged(this)
        invariant FirstFit(blocks, size) == i + FirstFit(blocks[i..], size)
        decreases |blocks| - i
      {
        assert blocks[i..][0] == blocks[i] && blocks[i..][1..] == blocks[i + 1..];
        assert HeaderAt(ram, blocks, i);
        var h := ram[b];
        if h.free && h.size >= size {
          assert FirstFit(blocks, size) == i;
          TakeBlock(b, size, i);
          return b + HEADER;
        }
        b := h.next;
        i := i + 1;
      }
      AddressNonZero(blocks, i, start, limit);
      assert blocks[i..] == [];
      return 0;
    }

    /** The inner part of `mm_alloc`: split block `b` if that pays, and take it. */
    method TakeBlock(b: nat, size: nat, ghost i: nat)
      requires Valid() && i < |blocks| && blocks[i].addr == b && Fits(blocks[i], size) && size % 4 == 0
      modifies this
      ensures Valid() && blocks == Carve(old(blocks), i, size)
    {
      hide Tiles, Coalesced, Aligned, Live, U32;
      CarveEffect(blocks, i, size, start, limit);
      InTheHeap(blocks, i, start, limit);
      assert HeaderAt(ram, blocks, i);
      WrapsNot(size + HEADER + MIN_REMAINDER);
      if ram[b].size >= U32(size + HEADER + MIN_REMAINDER) {
        WriteSplit(b, size, i);
      } else {
        TakeLinked(ram, blocks, i, start, limit);
      }
      ram := ram[b := ram[b].(free := false)];
      blocks := Carve(blocks, i, size);
    }

    /** The headers of the two pieces, the first not yet marked. */
    method WriteSplit(b: nat, size: nat, ghost i: nat)
      requires limit <= SRAM_END && i < |blocks| && blocks[i].addr == b && b in ram
      requires blocks[i].size >= size + HEADER + MIN_REMAINDER && End(blocks[i]) <= limit
      requires Tiles(blocks, start, limit) && Linked(ram, blocks) && Tiles(Carve(blocks, i, size), start, limit)
      modifies this`ram
      ensures b in ram && Linked(ram[b := ram[b].(free := false)], Carve(blocks, i, size))
    {
      hide Tiles, U32;
      assert HeaderAt(ram, blocks, i);
      WrapsNot(b + HEADER + size);
      var split := U32(b + HEADER + size);
      ghost var p, q := Block(b, size, false), Block(split, blocks[i].size - size - HEADER, true);
      SplitLinked(ram, blocks, i, p, q, start, limit);
      ghost var linked := ram[split := Header(q.size, true, ram[b].next)][b := Header(size, false, split)];
      ram := ram[split := Header(ram[b].size - size - HEADER, true, ram[b].next)];
      ram := ram[b := Header(size, ram[b].free, split)];
      assert ram[b := ram[b].(free := false)] == linked;
    }

    method Release(ptr: nat)
      requires Valid() && (ptr == 0 || IsLive(blocks, ptr))
      modifies this
      ensures Valid()
      ensures blocks == Free(old(blocks), ptr)
    {
      if ptr == 0 { return; }
      hide Tiles, Coalesced, Aligned, Live, Without, Merge, MarkFree;
      FreeEffect(blocks, ptr, start, limit);
      MarkFreeEffect(blocks, ptr, start, limit);
      var b := ptr - HEADER;
      ghost var i :| 0 <= i < |blocks| && !blocks[i].free && Payload(blocks[i]) == ptr;
      MarkLinked(ram, blocks, i, start, limit);
      ram := ram[b := ram[b].(free := true)];
      Coalesce(MarkFree(blocks, ptr));
    }

    /** The loop of `mm_free`: one pass that joins every free block with its free successors. */
    method Coalesce(ghost marked: seq<Block>)
      requires 0 < start && Tiles(marked, start, limit) && marked != [] && Linked(ram, marked)
      modifies this
      ensures blocks == Merge(marked) && Linked(ram, blocks)
    {
      // `done` is settled, `rest` still to be walked; the head of `rest` is the cursor.
      ghost var done, rest := [], marked;
      assert done + rest == marked;
      var c := start;
      while c != 0
        invariant Tiles(done + rest, start, limit) && Linked(ram, done + rest)
        invariant c == AddressOf(rest, 0)
        invariant Merge(marked) == done + Merge(rest)
        decreases |rest|
      {
        AddressNonZero(done + rest, |done|, start, limit);
        AddressNonZero(done + rest, |done| + 1, start, limit);
        RestLinked(ram, done, rest);
        var h := ram[c];
        if h.free && h.next != 0 && ram[h.next].free {
          AbsorbLinked(ram, done, rest, start, limit);
          var n := ram[h.next];
          ram := ram[c := Header(h.size + HEADER + n.size, h.free, n.next)];
          rest := Absorb(rest);
        } else {
          assert done + [rest[0]] + rest[1..] == done + rest;
          done, rest := done + [rest[0]], rest[1..];
          c := h.next;
        }
      }
      AddressNonZero(done + rest, |done|, start, limit);
      assert rest == [] && done + rest == done;
      blocks := done;
    }

    method CountFree() returns (total: nat)
      requires Valid()
      ensures total == FreeBytes(blocks) && total + HEADER <= limit - start
    {
      total := 0;
      var b := start;
      ghost var i := 0;
      while b != 0
        invariant i <= |blocks| && b == AddressOf(blocks, i)
        invariant Valid() && unchanged(this)
        invariant FreeBytes(blocks) == total + FreeBytes(blocks[i..])
        decreases |blocks| - i
      {
        assert blocks[i..][0] == blocks[i] && blocks[i..][1..] == blocks[i + 1..];
        assert HeaderAt(ram, blocks, i);
        var h := ram[b];
        if h.free { total := total + h.size; }
        b := h.next;
        i := i + 1;
      }
      AddressNonZero(blocks, i, start, limit);
      assert blocks[i..] == [];
      BytesConserved(blocks, start, limit);
    }
  }

  function LiveBytes(bs: seq<Block>): nat {
    if bs == [] then 0 else (if bs[0].free then 0 else bs[0].size) + LiveBytes(bs[1..])
  }

  /** Conservation: free payload, live payload and headers add up to the heap. */
  lemma {:induction false} BytesConserved(bs: seq<Block>, lo: nat, hi: nat)
    requires Tiles(bs, lo, hi)
    ensures FreeBytes(bs) + LiveBytes(bs) + HEADER * |bs| == hi - lo
  {
    if bs != [] { BytesConserved(bs[1..], End(bs[0]), hi); }
  }
}
