/** The kernel heap as a list of blocks: what an allocation, a free and the coalescing pass do
    to the list, and what every list in a run of them looks like. */
module HeapBlocks {
  import opened Words

  const HEAP_START: nat := 0x20_0000
  const HEAP_SIZE: nat := 0x40_0000
  const HEAP_END: nat := 0x60_0000
  /** The largest request whose rounding does not wrap. */
  const MAX_REQUEST: nat := 0xFFFF_FFEC

  datatype Block = Block(addr: nat, size: nat, free: bool) {
    function End(): nat {
      addr + size
    }
  }

  const INITIAL: seq<Block> := [Block(0x20_0000, 0x40_0000, true)]

  // ---------------------------------------------------------------- request sizes

  /** `align_size`, then the header, then the minimum: all in 32 bits. */
  function Total(size: u32): (r: u32)
    ensures r >= 32 && r % 4 == 0
  {
    var bumped := Add32(size, 3);
    var total := Add32(bumped - bumped % 4, 16);
    if total < 32 then 32 else total
  }

  /** The block asked for can hold the request exactly when the rounding did not wrap. */
  lemma TotalHolds(size: u32)
    requires size > 0
    ensures size <= Total(size) - 16 <==> size <= MAX_REQUEST
    ensures size <= MAX_REQUEST ==> Total(size) == (if size <= 16 then 32 else (size + 3) / 4 * 4 + 16)
  {
  }

  /** A request that wraps is served with the smallest block. */
  lemma TotalWraps(size: u32)
    requires size > MAX_REQUEST
    ensures Total(size) == 32
  {
  }

  // ---------------------------------------------------------------- lists of blocks

  /** The blocks cover [lo, hi) without gap or overlap, in address order, each aligned and large enough. */
  ghost predicate Tiles(bs: seq<Block>, lo: nat, hi: nat) {
    if bs == [] then lo == hi
    else bs[0].addr == lo && bs[0].size >= 32 && bs[0].size % 4 == 0 && Tiles(bs[1..], lo + bs[0].size, hi)
  }

  /** No two neighbours are both free. */
  ghost predicate Apart(bs: seq<Block>) {
    forall i :: 0 <= i < |bs| - 1 ==> !(bs[i].free && bs[i + 1].free)
  }

  ghost predicate HeapInv(bs: seq<Block>) {
    bs != [] && Tiles(bs, HEAP_START, HEAP_END) && Apart(bs)
  }

  /** The allocated blocks, in address order. */
  function Live(bs: seq<Block>): (r: seq<Block>) {
    if bs == [] then [] else if bs[0].free then Live(bs[1..]) else [bs[0]] + Live(bs[1..])
  }

  lemma {:induction false} TilesBounds(bs: seq<Block>, lo: nat, hi: nat)
    requires Tiles(bs, lo, hi)
    ensures lo <= hi && (bs != [] ==> lo + 32 <= hi)
  {
    if bs != [] {
      TilesBounds(bs[1..], lo + bs[0].size, hi);
    }
  }

  /** A list tiles an interval when its two halves tile the two halves of it. */
  lemma {:induction false} TilesSplit(a: seq<Block>, b: seq<Block>, lo: nat, hi: nat)
    requires Tiles(a + b, lo, hi)
    ensures exists mid: nat :: Tiles(a, lo, mid) && Tiles(b, mid, hi)
  {
    if a == [] {
      assert a + b == b;
      assert Tiles(a, lo, lo) && Tiles(b, lo, hi);
    } else {
      assert (a + b)[1..] == a[1..] + b;
      TilesSplit(a[1..], b, lo + a[0].size, hi);
      var mid: nat :| Tiles(a[1..], lo + a[0].size, mid) && Tiles(b, mid, hi);
      assert Tiles(a, lo, mid);
    }
  }

  lemma {:induction false} TilesJoin(a: seq<Block>, b: seq<Block>, lo: nat, mid: nat, hi: nat)
    requires Tiles(a, lo, mid) && Tiles(b, mid, hi)
    ensures Tiles(a + b, lo, hi)
  {
    if a == [] {
      assert a + b == b;
    } else {
      TilesJoin(a[1..], b, lo + a[0].size, mid, hi);
      assert (a + b)[1..] == a[1..] + b;
    }
  }

  lemma TilesCons(b: Block, rest: seq<Block>, hi: nat)
    requires b.size >= 32 && b.size % 4 == 0 && Tiles(rest, b.End(), hi)
    ensures Tiles([b] + rest, b.addr, hi)
  {
  }

  lemma {:induction false} LiveJoin(a: seq<Block>, b: seq<Block>)
    ensures Live(a + b) == Live(a) + Live(b)
  {
    if a == [] {
      assert a + b == b;
    } else {
      LiveJoin(a[1..], b);
      assert (a + b)[1..] == a[1..] + b && (a + b)[0] == a[0];
    }
  }

  /** Where block `i` lies: the part of the list before it ends where it starts. */
  lemma TilesAt(bs: seq<Block>, i: nat, lo: nat, hi: nat)
    requires Tiles(bs, lo, hi) && i < |bs|
    ensures Tiles(bs[..i], lo, bs[i].addr) && Tiles(bs[i + 1..], bs[i].End(), hi)
    ensures bs[i].size >= 32 && bs[i].size % 4 == 0 && lo <= bs[i].addr && bs[i].End() <= hi
    ensures i + 1 < |bs| ==> bs[i + 1].addr == bs[i].End()
    ensures lo % 4 == 0 ==> bs[i].addr % 4 == 0
  {
    assert bs == bs[..i] + bs[i..];
    TilesSplit(bs[..i], bs[i..], lo, hi);
    var mid: nat :| Tiles(bs[..i], lo, mid) && Tiles(bs[i..], mid, hi);
    assert bs[i..][1..] == bs[i + 1..];
    TilesBounds(bs[..i], lo, mid);
    TilesBounds(bs[i + 1..], bs[i].End(), hi);
    Aligned(bs[..i], lo, mid);
  }

  lemma {:induction false} Aligned(bs: seq<Block>, lo: nat, hi: nat)
    requires Tiles(bs, lo, hi)
    ensures lo % 4 == 0 ==> hi % 4 == 0
  {
    if bs != [] {
      Aligned(bs[1..], lo + bs[0].size, hi);
    }
  }

  /** Earlier blocks end before later ones begin. */
  lemma Ordered(bs: seq<Block>, i: nat, j: nat, lo: nat, hi: nat)
    requires Tiles(bs, lo, hi) && i < j < |bs|
    ensures bs[i].End() <= bs[j].addr
  {
    TilesAt(bs, j, lo, hi);
    TilesAt(bs[..j], i, lo, bs[j].addr);
  }

  // ---------------------------------------------------------------- canonical form

  lemma {:induction false} LiveWithin(bs: seq<Block>, lo: nat, hi: nat)
    requires Tiles(bs, lo, hi)
    ensures forall i :: 0 <= i < |Live(bs)| ==> lo <= Live(bs)[i].addr && Live(bs)[i].addr < hi
  {
    if bs != [] {
      LiveWithin(bs[1..], lo + bs[0].size, hi);
      TilesBounds(bs[1..], lo + bs[0].size, hi);
    }
  }

  /** A tiling without free neighbours is determined by its allocated blocks. */
  lemma {:induction false} Canonical(a: seq<Block>, b: seq<Block>, lo: nat, hi: nat)
    requires Tiles(a, lo, hi) && Tiles(b, lo, hi) && Apart(a) && Apart(b) && Live(a) == Live(b)
    ensures a == b
    decreases |a|
  {
    TilesBounds(a, lo, hi);
    TilesBounds(b, lo, hi);
    if a != [] && b != [] {
      FirstEnds(a, b, lo, hi);
      assert a == [a[0]] + a[1..] && b == [b[0]] + b[1..];
      LiveTail(a);
      LiveTail(b);
      ApartTail(a);
      ApartTail(b);
      Canonical(a[1..], b[1..], lo + a[0].size, hi);
    }
  }

  lemma LiveTail(a: seq<Block>)
    requires a != []
    ensures Live(a[1..]) == if a[0].free then Live(a) else Live(a)[1..]
    ensures !a[0].free ==> Live(a) != [] && Live(a)[0] == a[0]
  {
  }

  lemma ApartTail(a: seq<Block>)
    requires a != [] && Apart(a)
    ensures Apart(a[1..])
  {
  }

  /** The free block at the front reaches up to the first allocated block, or to the end. */
  lemma FrontFree(a: seq<Block>, lo: nat, hi: nat)
    requires a != [] && Tiles(a, lo, hi) && Apart(a) && a[0].free
    ensures a[0].End() == if Live(a) == [] then hi else Live(a)[0].addr
  {
  }

  /** If the first blocks are not both free or both allocated, the allocated ones differ. */
  lemma FirstAlike(a: seq<Block>, b: seq<Block>, lo: nat, hi: nat)
    requires a != [] && b != [] && Tiles(a, lo, hi) && Tiles(b, lo, hi)
    requires a[0].free && !b[0].free
    ensures Live(a) != Live(b)
  {
    LiveTail(a);
    LiveTail(b);
    LiveWithin(a[1..], lo + a[0].size, hi);
    if Live(a) != [] {
      assert Live(a)[0].addr > lo;
      assert Live(b)[0].addr == lo;
    }
  }

  lemma FirstEnds(a: seq<Block>, b: seq<Block>, lo: nat, hi: nat)
    requires a != [] && b != [] && Tiles(a, lo, hi) && Tiles(b, lo, hi) && Apart(a) && Apart(b) && Live(a) == Live(b)
    ensures a[0] == b[0]
  {
    assert a[0].free == b[0].free by {
      if a[0].free && !b[0].free {
        FirstAlike(a, b, lo, hi);
      } else if b[0].free && !a[0].free {
        FirstAlike(b, a, lo, hi);
      }
    }
    LiveTail(a);
    LiveTail(b);
    if a[0].free {
      FrontFree(a, lo, hi);
      FrontFree(b, lo, hi);
    }
  }

  /** With nothing allocated the heap is the one block it started as. */
  lemma AllFree(bs: seq<Block>)
    requires HeapInv(bs) && Live(bs) == []
    ensures bs == INITIAL
  {
    InitialInv();
    Canonical(bs, INITIAL, HEAP_START, HEAP_END);
  }

  lemma InitialInv()
    ensures HeapInv(INITIAL) && Live(INITIAL) == []
  {
  }

  // ---------------------------------------------------------------- allocation

  /** The first free block of at least `total` bytes, or the length of the list. */
  function FirstFit(bs: seq<Block>, total: nat): (i: nat)
    ensures i <= |bs|
    ensures i < |bs| ==> bs[i].free && bs[i].size >= total
    ensures forall j :: 0 <= j < i ==> !(bs[j].free && bs[j].size >= total)
  {
    if bs == [] then 0
    else if bs[0].free && bs[0].size >= total then 0
    else
      var k := FirstFit(bs[1..], total);
      assert forall j :: 0 < j < k + 1 ==> bs[j] == bs[1..][j - 1];
      k + 1
  }

  /** What block `b` turns into when `total` bytes of it are allocated: split when a block can remain. */
  function Pieces(b: Block, total: nat): (r: seq<Block>) {
    if b.size >= total + 32
    then [Block(b.addr, total, false), Block(b.addr + total, b.size - total, true)]
    else [Block(b.addr, b.size, false)]
  }

  function Take(bs: seq<Block>, i: nat, total: nat): (r: seq<Block>)
    requires i < |bs|
  {
    bs[..i] + Pieces(bs[i], total) + bs[i + 1..]
  }

  lemma TakeKeeps(bs: seq<Block>, i: nat, total: nat)
    requires HeapInv(bs) && i < |bs| && bs[i].free && 32 <= total <= bs[i].size && total % 4 == 0
    ensures HeapInv(Take(bs, i, total))
    ensures Live(bs) == Live(bs[..i]) + Live(bs[i + 1..])
    ensures Live(Take(bs, i, total)) == Live(bs[..i]) + ([Pieces(bs[i], total)[0]] + Live(bs[i + 1..]))
  {
    TakeTiles(bs, i, total);
    LiveAround(bs, i);
    TakeLive(bs, i, total);
    TakeApart(bs, i, total);
  }

  lemma PiecesTile(b: Block, total: nat)
    requires 32 <= total <= b.size && total % 4 == 0 && b.size % 4 == 0
    ensures Tiles(Pieces(b, total), b.addr, b.End())
  {
  }

  lemma TakeTiles(bs: seq<Block>, i: nat, total: nat)
    requires Tiles(bs, HEAP_START, HEAP_END) && i < |bs| && 32 <= total <= bs[i].size && total % 4 == 0
    ensures Tiles(Take(bs, i, total), HEAP_START, HEAP_END)
  {
    var a, ps, b := bs[..i], Pieces(bs[i], total), bs[i + 1..];
    TilesAt(bs, i, HEAP_START, HEAP_END);
    PiecesTile(bs[i], total);
    TilesJoin(ps, b, bs[i].addr, bs[i].End(), HEAP_END);
    TilesJoin(a, ps + b, HEAP_START, bs[i].addr, HEAP_END);
    assert a + (ps + b) == Take(bs, i, total);
  }

  lemma TakeLive(bs: seq<Block>, i: nat, total: nat)
    requires i < |bs|
    ensures Live(Take(bs, i, total)) == Live(bs[..i]) + ([Pieces(bs[i], total)[0]] + Live(bs[i + 1..]))
  {
    var a, ps, b := bs[..i], Pieces(bs[i], total), bs[i + 1..];
    LiveOf(ps);
    LiveJoin(ps, b);
    LiveJoin(a, ps + b);
    assert Take(bs, i, total) == a + (ps + b);
  }

  lemma LiveOf(ps: seq<Block>)
    requires |ps| == 1 || |ps| == 2
    requires !ps[0].free && (|ps| == 2 ==> ps[1].free)
    ensures Live(ps) == [ps[0]]
  {
    if |ps| == 2 {
      assert ps[1..] == [ps[1]];
      assert ps[1..][1..] == [];
      assert Live(ps[1..]) == [];
    } else {
      assert ps[1..] == [];
    }
  }

  lemma LiveAround(bs: seq<Block>, i: nat)
    requires i < |bs|
    ensures bs[i].free ==> Live(bs) == Live(bs[..i]) + Live(bs[i + 1..])
    ensures !bs[i].free ==> Live(bs) == Live(bs[..i]) + ([bs[i]] + Live(bs[i + 1..]))
  {
    var a, b := bs[..i], bs[i..];
    assert bs == a + b;
    LiveJoin(a, b);
    assert b[0] == bs[i] && b[1..] == bs[i + 1..];
  }

  lemma TakeApart(bs: seq<Block>, i: nat, total: nat)
    requires Apart(bs) && i < |bs| && bs[i].free
    ensures Apart(Take(bs, i, total))
  {
  }

  // ---------------------------------------------------------------- freeing

  /** One pass of merging each free block with the free blocks right after it. */
  function Coalesce(bs: seq<Block>): (r: seq<Block>)
    decreases |bs|
  {
    if |bs| < 2 then bs
    else if bs[0].free && bs[1].free && bs[0].End() == bs[1].addr
    then Coalesce([Block(bs[0].addr, bs[0].size + bs[1].size, true)] + bs[2..])
    else [bs[0]] + Coalesce(bs[1..])
  }

  /** One pass is enough, and it touches no allocated block. */
  lemma {:induction false} CoalesceKeeps(bs: seq<Block>, lo: nat, hi: nat)
    requires Tiles(bs, lo, hi)
    ensures Tiles(Coalesce(bs), lo, hi) && Apart(Coalesce(bs)) && Live(Coalesce(bs)) == Live(bs)
    ensures bs != [] ==> Coalesce(bs) != [] && Coalesce(bs)[0].free == bs[0].free
    decreases |bs|
  {
    if |bs| >= 2 {
      assert bs[1..][0] == bs[1] && bs[1..][1..] == bs[2..];
      if bs[0].free && bs[1].free {
        var merged := [Block(bs[0].addr, bs[0].size + bs[1].size, true)] + bs[2..];
        assert merged[1..] == bs[2..];
        CoalesceKeeps(merged, lo, hi);
        LiveTail(bs);
        LiveTail(bs[1..]);
        LiveTail(merged);
      } else {
        CoalesceKeeps(bs[1..], lo + bs[0].size, hi);
        var rest := Coalesce(bs[1..]);
        var r := [bs[0]] + rest;
        assert r[1..] == rest;
        forall j | 0 <= j < |r| - 1 ensures !(r[j].free && r[j + 1].free) {
          if j > 0 {
            assert r[j] == rest[j - 1] && r[j + 1] == rest[j - 1 + 1];
          }
        }
      }
    }
  }

  /** Block `i` marked free, then the merging pass. */
  function Release(bs: seq<Block>, i: nat): (r: seq<Block>)
    requires i < |bs|
  {
    Coalesce(bs[i := bs[i].(free := true)])
  }

  lemma ReleaseKeeps(bs: seq<Block>, i: nat)
    requires HeapInv(bs) && i < |bs|
    ensures HeapInv(Release(bs, i))
    ensures Live(Release(bs, i)) == Live(bs[..i]) + Live(bs[i + 1..])
  {
    var m := bs[i := bs[i].(free := true)];
    TilesAt(bs, i, HEAP_START, HEAP_END);
    assert m == bs[..i] + ([m[i]] + bs[i + 1..]);
    assert ([m[i]] + bs[i + 1..])[1..] == bs[i + 1..];
    TilesJoin(bs[..i], [m[i]] + bs[i + 1..], HEAP_START, bs[i].addr, HEAP_END);
    CoalesceKeeps(m, HEAP_START, HEAP_END);
    assert m[..i] == bs[..i] && m[i + 1..] == bs[i + 1..];
    LiveAround(m, i);
  }

  /** Freeing the block just allocated gives back the list as it was. */
  lemma FreeUndoesTake(bs: seq<Block>, i: nat, total: nat)
    requires HeapInv(bs) && i < |bs| && bs[i].free && 32 <= total <= bs[i].size && total % 4 == 0
    ensures Release(Take(bs, i, total), i) == bs
  {
    var m := Take(bs, i, total);
    TakeKeeps(bs, i, total);
    ReleaseKeeps(m, i);
    assert m[..i] == bs[..i];
    assert Live(m[i + 1..]) == Live(bs[i + 1..]) by {
      if |Pieces(bs[i], total)| == 2 {
        assert m[i + 1..][1..] == bs[i + 1..];
        LiveTail(m[i + 1..]);
      } else {
        assert m[i + 1..] == bs[i + 1..];
      }
    }
    Canonical(Release(m, i), bs, HEAP_START, HEAP_END);
  }

  // ---------------------------------------------------------------- gaps

  /** `n` bytes from `a` lie in the heap and no allocated block reaches into them. */
  ghost predicate Gap(bs: seq<Block>, a: nat, n: nat) {
    HEAP_START <= a && a + n <= HEAP_END && forall b :: b in bs && !b.free ==> b.End() <= a || a + n <= b.addr
  }

  lemma {:induction false} LiveMember(bs: seq<Block>, b: Block)
    ensures b in Live(bs) <==> b in bs && !b.free
  {
    if bs != [] {
      LiveMember(bs[1..], b);
      assert bs == [bs[0]] + bs[1..];
    }
  }

  /** The bytes of a free block are a gap. */
  lemma FreeIsGap(bs: seq<Block>, i: nat)
    requires HeapInv(bs) && i < |bs| && bs[i].free
    ensures Gap(bs, bs[i].addr, bs[i].size)
  {
    TilesAt(bs, i, HEAP_START, HEAP_END);
    forall b | b in bs && !b.free ensures b.End() <= bs[i].addr || bs[i].End() <= b.addr {
      var j :| 0 <= j < |bs| && bs[j] == b;
      if j < i {
        Ordered(bs, j, i, HEAP_START, HEAP_END);
      } else {
        assert j > i;
        Ordered(bs, i, j, HEAP_START, HEAP_END);
      }
    }
  }

  /** The block an address falls in. */
  lemma {:induction false} BlockAt(bs: seq<Block>, lo: nat, hi: nat, a: nat) returns (k: nat)
    requires Tiles(bs, lo, hi) && lo <= a < hi
    ensures k < |bs| && bs[k].addr <= a < bs[k].End()
  {
    if a < lo + bs[0].size {
      k := 0;
    } else {
      k := BlockAt(bs[1..], lo + bs[0].size, hi, a);
      k := k + 1;
    }
  }

  /** Every gap lies inside one free block: this is what keeping free neighbours merged buys. */
  lemma GapInFree(bs: seq<Block>, a: nat, n: nat) returns (k: nat)
    requires HeapInv(bs) && n > 0 && Gap(bs, a, n)
    ensures k < |bs| && bs[k].free && bs[k].addr <= a && a + n <= bs[k].End()
  {
    k := BlockAt(bs, HEAP_START, HEAP_END, a);
    assert bs[k].free;
    TilesAt(bs, k, HEAP_START, HEAP_END);
    if k + 1 < |bs| {
      assert !bs[k + 1].free;
      TilesAt(bs, k + 1, HEAP_START, HEAP_END);
    } else {
      assert bs[k + 1..] == [];
    }
  }

  /** First fit fails exactly when no gap is large enough, and otherwise finds the lowest one. */
  lemma FirstFitExact(bs: seq<Block>, n: nat)
    requires HeapInv(bs) && n > 0
    ensures FirstFit(bs, n) < |bs| <==> exists a: nat :: Gap(bs, a, n)
    ensures FirstFit(bs, n) < |bs| ==>
              var at := bs[FirstFit(bs, n)].addr;
              Gap(bs, at, n) && forall a: nat :: Gap(bs, a, n) ==> at <= a
  {
    var i := FirstFit(bs, n);
    if i < |bs| {
      FreeIsGap(bs, i);
      assert Gap(bs, bs[i].addr, n);
      forall a: nat | Gap(bs, a, n) ensures bs[i].addr <= a {
        FitsBefore(bs, a, n);
      }
    } else if exists a: nat :: Gap(bs, a, n) {
      var a: nat :| Gap(bs, a, n);
      FitsBefore(bs, a, n);
    }
  }

  lemma FitsBefore(bs: seq<Block>, a: nat, n: nat)
    requires HeapInv(bs) && n > 0 && Gap(bs, a, n)
    ensures FirstFit(bs, n) < |bs| && bs[FirstFit(bs, n)].addr <= a
  {
    var i := FirstFit(bs, n);
    var k := GapInFree(bs, a, n);
    assert i <= k;
    if i < k {
      Ordered(bs, i, k, HEAP_START, HEAP_END);
    }
  }
}
