/** The kernel heap as it lies in memory: headers chained by address among the payloads, read from the
    heap's bytes and written back in place. */
module KernelHeap {
  import opened Words
  import opened HeapBlocks
  import opened HeapRuns
  import opened HeapMemory

  // ---------------------------------------------------------------- a block split

  lemma TakeBefore(bs: seq<Block>, i: nat, total: nat, j: nat)
    requires j < i < |bs|
    ensures Take(bs, i, total)[j] == bs[j] && HeaderOf(Take(bs, i, total), j) == HeaderOf(bs, j)
  {
    var t := Take(bs, i, total);
    if j + 1 == i {
      assert t[j + 1] == Pieces(bs[i], total)[0];
    } else {
      assert t[j + 1] == bs[j + 1];
    }
  }

  lemma TakeAfter(bs: seq<Block>, i: nat, total: nat, j: nat)
    requires i < j < |bs|
    ensures var t := Take(bs, i, total);
            var j' := j + (|t| - |bs|);
            t[j'] == bs[j] && HeaderOf(t, j') == HeaderOf(bs, j)
  {
    var t := Take(bs, i, total);
    var d := |t| - |bs|;
    if j + 1 < |bs| {
      assert t[j + d + 1] == bs[j + 1];
    }
  }

  lemma LinkBefore(m: Bytes, bs: seq<Block>, i: nat, total: nat, j: nat)
    requires Tiles(bs, HEAP_START, HEAP_END) && i < |bs| && j < i && LinkAt(m, bs, j)
    ensures LinkAt(m, Take(bs, i, total), j)
  {
    TakeBefore(bs, i, total, j);
  }

  lemma LinkAfter(m: Bytes, bs: seq<Block>, i: nat, total: nat, k: nat)
    requires Tiles(bs, HEAP_START, HEAP_END) && i < k < |bs| && LinkAt(m, bs, k)
    ensures |Take(bs, i, total)| >= |bs| && LinkAt(m, Take(bs, i, total), k + (|Take(bs, i, total)| - |bs|))
  {
    TakeAfter(bs, i, total, k);
  }

  lemma TakeLinked(m: Bytes, bs: seq<Block>, i: nat, total: nat)
    requires Tiles(bs, HEAP_START, HEAP_END) && i < |bs|
    requires forall j {:trigger LinkAt(m, bs, j)} :: 0 <= j < |bs| && j != i ==> LinkAt(m, bs, j)
    requires var t := Take(bs, i, total); LinkAt(m, t, i) && LinkAt(m, t, i + (|t| - |bs|))
    ensures Linked(m, Take(bs, i, total))
  {
    var t := Take(bs, i, total);
    forall j | 0 <= j < |t| ensures LinkAt(m, t, j) {
      var k := j - (|t| - |bs|);
      if j < i {
        LinkBefore(m, bs, i, total, j);
      } else if k > i {
        LinkAfter(m, bs, i, total, k);
      }
    }
  }

  /** The whole block taken: its header alone is rewritten. */
  lemma TookWhole(m: Bytes, m': Bytes, bs: seq<Block>, i: nat, total: nat)
    requires Sound(m, bs) && i < |bs| && bs[i].free && 32 <= total <= bs[i].size < total + 32 && total % 4 == 0
    requires Written(m, bs[i].addr, HeaderOf(bs, i).(isFree := 0), m')
    ensures Sound(m', Take(bs, i, total)) && PayloadsKept(m, m', LiveSet(bs))
  {
    TakeKeeps(bs, i, total);
    var h := HeaderOf(bs, i).(isFree := 0);
    TilesAt(bs, i, HEAP_START, HEAP_END);
    forall j | 0 <= j < |bs| && j != i ensures LinkAt(m', bs, j) {
      LinkedAt(m, bs, j);
      WrittenLinks(m, bs[i].addr, h, m', bs, i, j);
    }
    WrittenAt(m, bs[i].addr, h, m');
    var t := Take(bs, i, total);
    assert AddrAt(t, i + 1) == AddrAt(bs, i + 1);
    TakeLinked(m', bs, i, total);
    WrittenPayloads(m, bs[i].addr, h, m', bs, i);
  }

  /** The first part of block `i` taken: a new header inside it, and its own rewritten. */
  ghost predicate CutAt(m: Bytes, m1: Bytes, m': Bytes, bs: seq<Block>, i: nat, total: nat)
    requires i < |bs|
  {
    && bs[i].free && 32 <= total && total + 32 <= bs[i].size
    && Written(m, bs[i].addr + total, Header(bs[i].size - total, 1, HEAP_MAGIC, AddrAt(bs, i + 1)), m1)
    && Written(m1, bs[i].addr, Header(total, 0, HEAP_MAGIC, bs[i].addr + total), m')
  }

  lemma CutOthers(m: Bytes, m1: Bytes, m': Bytes, bs: seq<Block>, i: nat, total: nat, j: nat)
    requires Tiles(bs, HEAP_START, HEAP_END) && i < |bs| && CutAt(m, m1, m', bs, i, total) && j < |bs| && j != i && LinkAt(m, bs, j)
    ensures LinkAt(m', bs, j)
  {
    WrittenLinks(m, bs[i].addr + total, Header(bs[i].size - total, 1, HEAP_MAGIC, AddrAt(bs, i + 1)), m1, bs, i, j);
    WrittenLinks(m1, bs[i].addr, Header(total, 0, HEAP_MAGIC, bs[i].addr + total), m', bs, i, j);
  }

  lemma CutHere(m: Bytes, m1: Bytes, m': Bytes, bs: seq<Block>, i: nat, total: nat, t: seq<Block>)
    requires i < |bs| && CutAt(m, m1, m', bs, i, total)
    requires i + 1 < |t| && t[i].addr == bs[i].addr && t[i + 1].addr == bs[i].addr + total
    requires HeaderOf(t, i) == Header(total, 0, HEAP_MAGIC, bs[i].addr + total)
    requires HeaderOf(t, i + 1) == Header(bs[i].size - total, 1, HEAP_MAGIC, AddrAt(bs, i + 1))
    ensures LinkAt(m', t, i) && LinkAt(m', t, i + 1)
  {
    WrittenAt(m, t[i + 1].addr, HeaderOf(t, i + 1), m1);
    WrittenApart(m1, t[i].addr, HeaderOf(t, i), m', t[i + 1].addr, HeaderOf(t, i + 1));
    WrittenAt(m1, t[i].addr, HeaderOf(t, i), m');
  }

  lemma TookPart(m: Bytes, m1: Bytes, m': Bytes, bs: seq<Block>, i: nat, total: nat)
    requires Sound(m, bs) && i < |bs| && CutAt(m, m1, m', bs, i, total) && total % 4 == 0
    ensures Sound(m', Take(bs, i, total)) && PayloadsKept(m, m', LiveSet(bs))
  {
    TakeKeeps(bs, i, total);
    forall j | 0 <= j < |bs| && j != i ensures LinkAt(m', bs, j) {
      LinkedAt(m, bs, j);
      CutOthers(m, m1, m', bs, i, total, j);
    }
    TookHeaders(bs, i, total);
    CutHere(m, m1, m', bs, i, total, Take(bs, i, total));
    TakeLinked(m', bs, i, total);
    var at := bs[i].addr;
    WrittenPayloads(m, at + total, Header(bs[i].size - total, 1, HEAP_MAGIC, AddrAt(bs, i + 1)), m1, bs, i);
    WrittenPayloads(m1, at, Header(total, 0, HEAP_MAGIC, at + total), m', bs, i);
    PayloadsTwice(m, m1, m', LiveSet(bs), LiveSet(bs));
  }

  lemma TakeHead(bs: seq<Block>, i: nat, total: nat)
    requires i < |bs|
    ensures |Take(bs, i, total)| > 0 && Take(bs, i, total)[0].addr == bs[0].addr
  {
  }

  lemma TookHeaders(bs: seq<Block>, i: nat, total: nat)
    requires i < |bs| && total + 32 <= bs[i].size
    ensures var t := Take(bs, i, total);
            && |t| == |bs| + 1 && t[i].addr == bs[i].addr && t[i + 1].addr == bs[i].addr + total
            && HeaderOf(t, i) == Header(total, 0, HEAP_MAGIC, bs[i].addr + total)
            && HeaderOf(t, i + 1) == Header(bs[i].size - total, 1, HEAP_MAGIC, AddrAt(bs, i + 1))
  {
    var t := Take(bs, i, total);
    assert t[i] == Block(bs[i].addr, total, false);
    assert t[i + 1] == Block(bs[i].addr + total, bs[i].size - total, true);
    assert AddrAt(t, i + 2) == AddrAt(bs, i + 1);
  }

  // ---------------------------------------------------------------- two blocks merged

  /** The list after block `i` swallowed block `i + 1`. */
  function Joined(bs: seq<Block>, i: nat): seq<Block>
    requires i + 1 < |bs|
  {
    bs[..i] + [Block(bs[i].addr, bs[i].size + bs[i + 1].size, true)] + bs[i + 2..]
  }

  /** The header of the merged block. */
  function JoinedHeader(bs: seq<Block>, i: nat): Header
    requires i + 1 < |bs|
  {
    Header(bs[i].size + bs[i + 1].size, 1, HEAP_MAGIC, AddrAt(bs, i + 2))
  }

  lemma JoinedHeaders(bs: seq<Block>, i: nat, j: nat)
    requires Tiles(bs, HEAP_START, HEAP_END) && i + 1 < |bs| && j < |bs| && j != i + 1
    ensures var t := Joined(bs, i);
            var j' := if j <= i then j else j - 1;
            t[j'].addr == bs[j].addr && HeaderOf(t, j') == if j == i then JoinedHeader(bs, i) else HeaderOf(bs, j)
  {
    var t := Joined(bs, i);
    if j < i {
      assert t[j] == bs[j] && AddrAt(t, j + 1) == AddrAt(bs, j + 1);
    } else if j == i {
      assert AddrAt(t, i + 1) == AddrAt(bs, i + 2);
    } else {
      assert t[j - 1] == bs[j] && AddrAt(t, j) == AddrAt(bs, j + 1);
    }
  }

  /** Rewriting one header merges two free blocks of the list; no other header and no payload changes. */
  lemma MergedLinked(m: Bytes, m': Bytes, bs: seq<Block>, i: nat)
    requires Tiles(bs, HEAP_START, HEAP_END) && Linked(m, bs) && i + 1 < |bs| && bs[i].free && bs[i + 1].free
    requires Written(m, bs[i].addr, JoinedHeader(bs, i), m')
    ensures Linked(m', Joined(bs, i))
    ensures Tiles(Joined(bs, i), HEAP_START, HEAP_END) && LiveSet(Joined(bs, i)) == LiveSet(bs)
    ensures PayloadsKept(m, m', LiveSet(bs))
  {
    var t := Joined(bs, i);
    TilesAt(bs, i, HEAP_START, HEAP_END);
    JoinedTiles(bs, i);
    JoinedSet(bs, i);
    WrittenAt(m, bs[i].addr, JoinedHeader(bs, i), m');
    WrittenPayloads(m, bs[i].addr, JoinedHeader(bs, i), m', bs, i);
    forall j | 0 <= j < |t| ensures LinkAt(m', t, j) {
      var k := if j <= i then j else j + 1;
      JoinedHeaders(bs, i, k);
      if k != i {
        LinkedAt(m, bs, k);
        WrittenLinks(m, bs[i].addr, JoinedHeader(bs, i), m', bs, i, k);
      }
    }
  }

  lemma JoinedTiles(bs: seq<Block>, i: nat)
    requires Tiles(bs, HEAP_START, HEAP_END) && i + 1 < |bs|
    ensures Tiles(Joined(bs, i), HEAP_START, HEAP_END)
  {
    var b, rest := JoinedTail(bs, i);
    TilesJoin(bs[..i], [b] + rest, HEAP_START, b.addr, HEAP_END);
    assert bs[..i] + ([b] + rest) == Joined(bs, i);
  }

  lemma JoinedTail(bs: seq<Block>, i: nat) returns (b: Block, rest: seq<Block>)
    requires Tiles(bs, HEAP_START, HEAP_END) && i + 1 < |bs|
    ensures b == Block(bs[i].addr, bs[i].size + bs[i + 1].size, true) && rest == bs[i + 2..]
    ensures Tiles(bs[..i], HEAP_START, b.addr) && Tiles([b] + rest, b.addr, HEAP_END)
  {
    TilesAt(bs, i, HEAP_START, HEAP_END);
    TilesAt(bs, i + 1, HEAP_START, HEAP_END);
    b, rest := Block(bs[i].addr, bs[i].size + bs[i + 1].size, true), bs[i + 2..];
    TilesCons(b, rest, HEAP_END);
  }

  lemma JoinedSet(bs: seq<Block>, i: nat)
    requires i + 1 < |bs| && bs[i].free && bs[i + 1].free
    ensures LiveSet(Joined(bs, i)) == LiveSet(bs)
  {
  }

  /** One merge is one step of the pass. */
  lemma JoinedCoalesce(bs: seq<Block>, i: nat)
    requires i + 1 < |bs| && bs[i].free && bs[i + 1].free && bs[i].End() == bs[i + 1].addr
    ensures Coalesce(bs[i..]) == Coalesce(Joined(bs, i)[i..]) && Joined(bs, i)[..i] == bs[..i]
  {
    assert bs[i..][2..] == bs[i + 2..];
    assert Joined(bs, i)[i..] == [Block(bs[i].addr, bs[i].size + bs[i + 1].size, true)] + bs[i..][2..];
  }

  /** Passing over block `i` is one step of the pass. */
  lemma PassedCoalesce(bs: seq<Block>, i: nat)
    requires i + 1 < |bs| && !(bs[i].free && bs[i + 1].free)
    ensures bs[..i] + Coalesce(bs[i..]) == bs[..i + 1] + Coalesce(bs[i + 1..])
  {
  }

  // ---------------------------------------------------------------- a freed header

  /** The header at `a` says free. */
  ghost predicate Marked(m: Bytes, a: nat) {
    exists h :: HeaderIs(m, a, h) && h.magic == HEAP_MAGIC && h.isFree != 0
  }

  /** No header of the list overlaps the one at `a` without being it. */
  ghost predicate Clear(bs: seq<Block>, a: nat) {
    forall j :: 0 <= j < |bs| ==> bs[j].addr == a || Apart16(bs[j].addr, a)
  }

  /** A merge leaves the mark of a freed header, even of one it swallows. */
  lemma MergedMarked(m: Bytes, m': Bytes, bs: seq<Block>, i: nat, a: nat)
    requires i + 1 < |bs| && Written(m, bs[i].addr, JoinedHeader(bs, i), m') && Marked(m, a) && Clear(bs, a)
    ensures Marked(m', a) && Clear(Joined(bs, i), a)
  {
    if bs[i].addr == a {
      WrittenAt(m, a, JoinedHeader(bs, i), m');
    } else {
      var h :| HeaderIs(m, a, h) && h.magic == HEAP_MAGIC && h.isFree != 0;
      WrittenApart(m, bs[i].addr, JoinedHeader(bs, i), m', a, h);
    }
    forall j | 0 <= j < |Joined(bs, i)| ensures Joined(bs, i)[j].addr == a || Apart16(Joined(bs, i)[j].addr, a) {
      assert Joined(bs, i)[j].addr == if j <= i then bs[j].addr else bs[j + 1].addr;
    }
  }

  lemma BlockClear(bs: seq<Block>, k: nat)
    requires Tiles(bs, HEAP_START, HEAP_END) && k < |bs|
    ensures Clear(bs, bs[k].addr)
  {
    forall j | 0 <= j < |bs| ensures bs[j].addr == bs[k].addr || Apart16(bs[j].addr, bs[k].addr) {
      if j != k {
        AtDistinct(bs, j, k);
      }
    }
  }

  /** Marking block `i` free in its header. */
  lemma FreedLinked(m: Bytes, m': Bytes, bs: seq<Block>, i: nat)
    requires Sound(m, bs) && i < |bs| && Written(m, bs[i].addr, HeaderOf(bs, i).(isFree := 1), m')
    ensures var t := bs[i := bs[i].(free := true)];
            && Tiles(t, HEAP_START, HEAP_END) && Linked(m', t) && Marked(m', bs[i].addr) && Clear(t, bs[i].addr)
            && LiveSet(t) <= LiveSet(bs) && PayloadsKept(m, m', LiveSet(t))
  {
    var h := HeaderOf(bs, i).(isFree := 1);
    var t := bs[i := bs[i].(free := true)];
    TilesAt(bs, i, HEAP_START, HEAP_END);
    MarkTiles(bs, i);
    BlockClear(t, i);
    WrittenAt(m, bs[i].addr, h, m');
    WrittenPayloads(m, bs[i].addr, h, m', bs, i);
    ReleasedLive(bs, i);
    forall j | 0 <= j < |t| ensures LinkAt(m', t, j) {
      LinkedAt(m, bs, j);
      if j != i {
        WrittenLinks(m, bs[i].addr, h, m', bs, i, j);
      }
    }
  }

  lemma MarkTiles(bs: seq<Block>, i: nat)
    requires Tiles(bs, HEAP_START, HEAP_END) && i < |bs|
    ensures Tiles(bs[i := bs[i].(free := true)], HEAP_START, HEAP_END)
  {
    TilesAt(bs, i, HEAP_START, HEAP_END);
    var b, rest := bs[i].(free := true), bs[i + 1..];
    TilesCons(b, rest, HEAP_END);
    TilesJoin(bs[..i], [b] + rest, HEAP_START, b.addr, HEAP_END);
    assert bs[..i] + ([b] + rest) == bs[i := bs[i].(free := true)];
  }

  lemma ReleasedLive(bs: seq<Block>, i: nat)
    requires HeapInv(bs) && i < |bs|
    ensures LiveSet(bs[i := bs[i].(free := true)]) <= LiveSet(bs)
  {
    var t := bs[i := bs[i].(free := true)];
    forall b | b in LiveSet(t) ensures b in LiveSet(bs) {
      var j :| 0 <= j < |t| && t[j] == b;
      assert bs[j] == b;
    }
  }

  // ---------------------------------------------------------------- pointers

  /** The address of the header before a pointer. */
  function BlockOf(ptr: u32): u32 {
    Add32(ptr, 0xFFFF_FFF0)
  }

  /** `kfree` ignores the pointer: no header of the heap before it, or one that says free. */
  ghost predicate Ignored(m: Bytes, ptr: u32) {
    var a := BlockOf(ptr);
    a < HEAP_START || HEAP_END <= a || exists h :: HeaderIs(m, a, h) && (h.magic != HEAP_MAGIC || h.isFree != 0)
  }

  /** `krealloc` rejects the pointer: the bytes before it are no header. */
  ghost predicate Rejected(m: Bytes, ptr: u32) {
    exists h :: HeaderIs(m, BlockOf(ptr), h) && h.magic != HEAP_MAGIC
  }

  /** The header before a block's pointer is the block's. */
  lemma BlockHeader(m: Bytes, bs: seq<Block>, ptr: u32)
    requires Sound(m, bs) && Find(bs, ptr) < |bs|
    ensures var i := Find(bs, ptr);
            && ptr >= 16 && BlockOf(ptr) == ptr - 16 == bs[i].addr && LinkAt(m, bs, i) && 32 <= bs[i].size
            && InHeap(bs[i].addr) && bs[i].End() <= HEAP_END
  {
    var i := Find(bs, ptr);
    TilesAt(bs, i, HEAP_START, HEAP_END);
    LinkedAt(m, bs, i);
  }

  /** A pointer that is rejected is no block's. */
  lemma RejectedNone(m: Bytes, bs: seq<Block>, ptr: u32)
    requires Sound(m, bs) && Rejected(m, ptr)
    ensures Find(bs, ptr) == |bs| && Ignored(m, ptr)
  {
    var h :| HeaderIs(m, BlockOf(ptr), h) && h.magic != HEAP_MAGIC;
    assert Find(bs, ptr) == |bs| by {
      if Find(bs, ptr) < |bs| {
        BlockHeader(m, bs, ptr);
        HeaderUnique(m, BlockOf(ptr), h, HeaderOf(bs, Find(bs, ptr)));
      }
    }
  }

  // ---------------------------------------------------------------- a payload copied

  /** A copy into the payload of block `k` changes no header and no other payload. */
  lemma CopiedSound(m: Bytes, m': Bytes, bs: seq<Block>, k: nat, src: nat, n: nat)
    requires Sound(m, bs) && k < |bs| && CopiedTo(m, src, bs[k].addr + 16, n, m') && bs[k].addr + 16 + n <= bs[k].End()
    ensures Sound(m', bs) && PayloadsKept(m, m', LiveSet(bs) - {bs[k]})
  {
    var dst := bs[k].addr + 16;
    forall j | 0 <= j < |bs| ensures LinkAt(m', bs, j) {
      LinkedAt(m, bs, j);
      if j != k {
        AtDistinct(bs, j, k);
      }
      CopiedApart(m, src, dst, n, m', bs[j].addr, HeaderOf(bs, j));
    }
    forall b | b in LiveSet(bs) - {bs[k]} ensures PayloadKept(m, m', b) {
      var j :| 0 <= j < |bs| && bs[j] == b;
      TilesAt(bs, j, HEAP_START, HEAP_END);
      AtDistinct(bs, j, k);
      CopiedPayload(m, src, dst, n, m', b);
    }
  }

  /** What a moved block needs: the new block, apart from all others, holds the old payload. */
  ghost predicate Room(bs: seq<Block>, bs': seq<Block>, b: Block, ptr: nat, n: nat) {
    && Spans(ptr, n) && Spans(b.addr + 16, n) && 16 + n <= b.size && b in bs' && LiveSet(bs') - {b} == LiveSet(bs)
    && (exists o :: o in LiveSet(bs) && o.addr + 16 == ptr && o.size == n + 16)
  }

  lemma MoveRoom(bs: seq<Block>, ptr: nat, size: u32, n: nat) returns (b: Block)
    requires HeapInv(bs) && ptr in Ptrs(bs) && n == SizeAt(bs, ptr) - 16 < size && CopyFits(bs, ptr, size)
    requires Malloc(bs, size).ptr != 0
    ensures b.addr + 16 == Malloc(bs, size).ptr != ptr && !b.free && Room(bs, Malloc(bs, size).blocks, b, ptr, n)
    ensures ptr in Ptrs(Malloc(bs, size).blocks)
  {
    PtrsOf(bs, ptr);
    var i := Find(bs, ptr);
    TilesAt(bs, i, HEAP_START, HEAP_END);
    MallocExact(bs, size);
    MallocHeld(bs, size);
    b := MallocBlock(bs, size);
    TakenBlock(bs, size, b);
    var bs' := Malloc(bs, size).blocks;
    var k :| 0 <= k < |bs'| && bs'[k] == b;
    TilesAt(bs', k, HEAP_START, HEAP_END);
    FreshBlock(bs, b);
    assert bs[i] in LiveSet(bs);
  }

  lemma TakenBlock(bs: seq<Block>, size: u32, b: Block)
    requires HeapInv(bs) && Malloc(bs, size).ptr != 0 && b.addr + 16 == Malloc(bs, size).ptr
    requires !b.free && LiveSet(Malloc(bs, size).blocks) == LiveSet(bs) + {b}
    requires forall o :: o in LiveSet(bs) ==> o.End() <= b.addr || b.End() <= o.addr
    ensures b.size == TakenSize(bs, size) && b in LiveSet(Malloc(bs, size).blocks)
  {
    var i := FirstFit(bs, Total(size));
    var t := Take(bs, i, Total(size));
    TakeKeeps(bs, i, Total(size));
    var p := Pieces(bs[i], Total(size))[0];
    assert t[i] == p;
    var j :| 0 <= j < |t| && t[j] == b;
    if j != i {
      AtDistinct(t, i, j);
    }
  }

  lemma FreshBlock(bs: seq<Block>, b: Block)
    requires HeapInv(bs) && forall o :: o in LiveSet(bs) ==> o.End() <= b.addr || b.End() <= o.addr
    ensures b.size > 0 ==> b !in LiveSet(bs)
  {
  }

  lemma CopiedRoom(m: Bytes, m': Bytes, bs: seq<Block>, bs': seq<Block>, b: Block, ptr: nat, r: nat, n: nat)
    requires Sound(m, bs') && Room(bs, bs', b, ptr, n) && r == b.addr + 16 && CopiedTo(m, ptr, r, n, m')
    ensures Sound(m', bs') && PayloadsKept(m, m', LiveSet(bs))
  {
    var k :| 0 <= k < |bs'| && bs'[k] == b;
    CopiedSound(m, m', bs', k, ptr, n);
  }

  /** The old payload, untouched by the allocation and copied into the new block, is there after the
      old block has been freed, and so are all other payloads. */
  lemma MoveDone(bs: seq<Block>, ptr: nat, size: u32, n: nat, m0: Bytes, m1: Bytes, m2: Bytes, m3: Bytes, b: Block, r: nat)
    requires HeapInv(bs) && Malloc(bs, size).ptr == r != 0 && b.addr + 16 == r != ptr && !b.free
    requires Room(bs, Malloc(bs, size).blocks, b, ptr, n) && PayloadsKept(m0, m1, LiveSet(bs))
    requires CopiedTo(m1, ptr, r, n, m2) && PayloadsKept(m1, m2, LiveSet(bs))
    requires PayloadsKept(m2, m3, LiveSet(Free(Malloc(bs, size).blocks, ptr)))
    ensures PayloadsKept(m0, m3, Others(bs, ptr)) && Moved(m0, m3, ptr, r, n)
  {
    MallocExact(bs, size);
    FreeExact(Malloc(bs, size).blocks, ptr);
    var left := Others(Malloc(bs, size).blocks, ptr);
    assert Others(bs, ptr) <= left && b in left;
    PayloadsTwice(m0, m1, m2, LiveSet(bs), LiveSet(bs));
    PayloadsTwice(m0, m2, m3, LiveSet(bs), Others(bs, ptr));
    var o :| o in LiveSet(bs) && o.addr + 16 == ptr && o.size == n + 16;
    MovedPayload(m0, m1, m2, m3, o, b, ptr, r, n);
  }

  /** What `krealloc` does to the list, case by case. */
  lemma ReallocCases(bs: seq<Block>, ptr: nat, size: u32)
    requires HeapInv(bs) && ptr != 0 && size != 0
    ensures ptr in Ptrs(bs) ==> Find(bs, ptr) < |bs| && SizeAt(bs, ptr) == bs[Find(bs, ptr)].size >= 32
    ensures Find(bs, ptr) == |bs| ==> Realloc(bs, ptr, size) == Reply(bs, 0)
    ensures Find(bs, ptr) < |bs| && size <= SizeAt(bs, ptr) - 16 ==> Realloc(bs, ptr, size) == Reply(bs, ptr)
    ensures Find(bs, ptr) < |bs| && size > SizeAt(bs, ptr) - 16 ==>
              var m := Malloc(bs, size);
              Realloc(bs, ptr, size) == if m.ptr == 0 then Reply(bs, 0) else Reply(Free(m.blocks, ptr), m.ptr)
  {
    PtrsOf(bs, ptr);
    MallocExact(bs, size);
    if Find(bs, ptr) < |bs| {
      TilesAt(bs, Find(bs, ptr), HEAP_START, HEAP_END);
    }
  }

  lemma OthersKept(m: Bytes, bs: seq<Block>, ptr: nat)
    requires PayloadsKept(m, m, LiveSet(bs))
    ensures PayloadsKept(m, m, Others(bs, ptr))
  {
  }

  // ---------------------------------------------------------------- facts the loops use

  lemma FitIs(bs: seq<Block>, i: nat, total: nat)
    requires i <= |bs| && (i < |bs| ==> bs[i].free && bs[i].size >= total)
    requires forall j :: 0 <= j < i ==> !(bs[j].free && bs[j].size >= total)
    ensures FirstFit(bs, total) == i
  {
  }

  lemma AddrNull(bs: seq<Block>, i: nat)
    requires Tiles(bs, HEAP_START, HEAP_END) && i <= |bs|
    ensures AddrAt(bs, i) == 0 <==> i == |bs|
  {
    if i < |bs| {
      TilesAt(bs, i, HEAP_START, HEAP_END);
    }
  }

  lemma LastPassed(bs: seq<Block>, i: nat)
    requires Tiles(bs, HEAP_START, HEAP_END) && i < |bs| && AddrAt(bs, i + 1) == 0
    ensures bs[..i] + Coalesce(bs[i..]) == bs
  {
    AddrNull(bs, i + 1);
  }

  lemma NextFits(bs: seq<Block>, i: nat)
    requires Tiles(bs, HEAP_START, HEAP_END) && i < |bs|
    ensures AddrAt(bs, i + 1) < 0x1_0000_0000 && bs[i].size < 0x1_0000_0000
  {
    TilesAt(bs, i, HEAP_START, HEAP_END);
    if i + 1 < |bs| {
      TilesAt(bs, i + 1, HEAP_START, HEAP_END);
    }
  }

  class Heap {
    var head: nat
    var bytes: Bytes
    ghost var blocks: seq<Block>

    ghost predicate Valid()
      reads this
    {
      Sound(bytes, blocks) && head == blocks[0].addr
    }

    /** The header that stands at an address. */
    method ReadHeader(a: nat) returns (h: Header)
      requires InHeap(a)
      ensures HeaderIs(bytes, a, h) && forall g :: HeaderIs(bytes, a, g) ==> g == h
    {
      h := HeaderAt(bytes, a);
      assert Unfold(OfHeaderIs, 0);
    }

    method WriteHeader(a: nat, h: Header)
      requires InHeap(a) && h.Fits()
      modifies `bytes
      ensures Written(old(bytes), a, h, bytes)
    {
      bytes := PutHeader(bytes, a, h);
    }

    /** `memcpy` from one payload to another. */
    method CopyBytes(src: nat, dst: nat, n: nat)
      requires Spans(src, n) && Spans(dst, n)
      modifies `bytes
      ensures CopiedTo(old(bytes), src, dst, n, bytes)
    {
      bytes := PutCopy(bytes, src, dst, n);
    }

    /** `heap_init`. */
    constructor (memory: Bytes)
      ensures Valid() && blocks == INITIAL
    {
      head := 0x20_0000;
      bytes := memory;
      blocks := INITIAL;
      new;
      WriteHeader(0x20_0000, Header(0x40_0000, 1, HEAP_MAGIC, 0));
      InitialInv();
      WrittenAt(memory, 0x20_0000, Header(0x40_0000, 1, HEAP_MAGIC, 0), bytes);
    }

    /** `kmalloc`. The headers it writes lie in free memory: no allocated payload changes. */
    method Kmalloc(size: u32) returns (ptr: nat)
      requires Valid()
      modifies this
      ensures Valid() && Reply(blocks, ptr) == Malloc(old(blocks), size)
      ensures PayloadsKept(old(bytes), bytes, LiveSet(old(blocks)))
      ensures ptr == 0 ==> bytes == old(bytes)
    {
      ptr := 0;
      PayloadsSame(bytes, blocks);
      if size == 0 {
        return;
      }
      var total := Total(size);
      var current := head;
      ghost var i := 0;
      while current != 0
        invariant Valid() && bytes == old(bytes) && blocks == old(blocks)
        invariant i <= |blocks| && current == AddrAt(blocks, i)
        invariant forall j :: 0 <= j < i ==> !(blocks[j].free && blocks[j].size >= total)
        decreases |blocks| - i
      {
        LinkedAt(bytes, blocks, i);
        var h := ReadHeader(current);
        if h.magic != HEAP_MAGIC {
          assert false;
          return;
        }
        if h.isFree != 0 && h.size >= total {
          FitIs(blocks, i, total);
          TakeBlock(current, h, total, i);
          ptr := current + 16;
          return;
        }
        current := h.next;
        i := i + 1;
      }
      AddrNull(blocks, i);
      FitIs(blocks, i, total);
    }

    /** The block found is split if a block can remain, and marked allocated. */
    method TakeBlock(current: nat, h: Header, total: nat, ghost i: nat)
      requires Valid() && i < |blocks| && current == blocks[i].addr && h == HeaderOf(blocks, i) && LinkAt(bytes, blocks, i)
      requires blocks[i].free && 32 <= total <= blocks[i].size && total % 4 == 0
      modifies this
      ensures Valid() && blocks == Take(old(blocks), i, total)
      ensures PayloadsKept(old(bytes), bytes, LiveSet(old(blocks)))
    {
      ghost var m, bs := bytes, blocks;
      TilesAt(blocks, i, HEAP_START, HEAP_END);
      TakeHead(blocks, i, total);
      if h.size >= total + 32 {
        CutBlock(current, h, total, i);
      } else {
        WriteHeader(current, h.(isFree := 0));
        TookWhole(m, bytes, bs, i, total);
      }
      blocks := Take(blocks, i, total);
    }

    /** The split: a header for the rest, then the block's own. */
    method CutBlock(current: nat, h: Header, total: nat, ghost i: nat)
      requires Valid() && i < |blocks| && current == blocks[i].addr && h == HeaderOf(blocks, i) && LinkAt(bytes, blocks, i)
      requires blocks[i].free && 32 <= total && total + 32 <= blocks[i].size && total % 4 == 0 && blocks[i].End() <= HEAP_END
      modifies `bytes
      ensures Sound(bytes, Take(blocks, i, total)) && PayloadsKept(old(bytes), bytes, LiveSet(blocks))
    {
      ghost var m := bytes;
      WriteHeader(current + total, Header(h.size - total, 1, HEAP_MAGIC, h.next));
      ghost var m1 := bytes;
      WriteHeader(current, Header(total, 0, h.magic, current + total));
      assert CutAt(m, m1, bytes, blocks, i, total);
      TookPart(m, m1, bytes, blocks, i, total);
    }

    /** `coalesce_free_blocks`, run after the header at `at` was marked free. */
    method CoalesceFreeBlocks(ghost at: nat)
      requires blocks != [] && Tiles(blocks, HEAP_START, HEAP_END) && Linked(bytes, blocks) && head == blocks[0].addr
      requires Marked(bytes, at) && Clear(blocks, at) && PayloadsKept(bytes, bytes, LiveSet(blocks))
      modifies this
      ensures Valid() && blocks == Coalesce(old(blocks)) && LiveSet(blocks) == LiveSet(old(blocks))
      ensures Marked(bytes, at) && PayloadsKept(old(bytes), bytes, LiveSet(blocks))
    {
      var current := head;
      ghost var i := 0;
      assert blocks[..0] + Coalesce(blocks[0..]) == Coalesce(blocks) by {
        assert blocks[0..] == blocks;
      }
      LinkedAt(bytes, blocks, 0);
      var h := ReadHeader(current);
      while current != 0 && h.next != 0
        invariant i < |blocks| && current == blocks[i].addr && h == HeaderOf(blocks, i) && head == blocks[0].addr
        invariant Tiles(blocks, HEAP_START, HEAP_END) && Linked(bytes, blocks) && Marked(bytes, at) && Clear(blocks, at)
        invariant LiveSet(blocks) == LiveSet(old(blocks)) && PayloadsKept(old(bytes), bytes, LiveSet(blocks))
        invariant blocks[..i] + Coalesce(blocks[i..]) == Coalesce(old(blocks))
        decreases |blocks| - i
      {
        TilesAt(blocks, i, HEAP_START, HEAP_END);
        LinkedAt(bytes, blocks, i + 1);
        var next := ReadHeader(h.next);
        if h.isFree != 0 && next.isFree != 0 && current + h.size == h.next {
          MergeNext(current, h, next, i, at, old(bytes));
        } else {
          PassedCoalesce(blocks, i);
          current := h.next;
          i := i + 1;
        }
        LinkedAt(bytes, blocks, i);
        assert current == blocks[i].addr;
        h := ReadHeader(current);
      }
      TilesAt(blocks, i, HEAP_START, HEAP_END);
      LastPassed(blocks, i);
      CoalesceKeeps(old(blocks), HEAP_START, HEAP_END);
    }

    /** The block at `current` swallows the next one. */
    method MergeNext(current: nat, h: Header, next: Header, ghost i: nat, ghost at: nat, ghost m0: Bytes)
      requires i + 1 < |blocks| && current == blocks[i].addr && h == HeaderOf(blocks, i) && next == HeaderOf(blocks, i + 1)
      requires Tiles(blocks, HEAP_START, HEAP_END) && Linked(bytes, blocks) && Marked(bytes, at) && Clear(blocks, at)
      requires blocks[i].free && blocks[i + 1].free && PayloadsKept(m0, bytes, LiveSet(blocks))
      modifies `bytes, `blocks
      ensures blocks == Joined(old(blocks), i) && LiveSet(blocks) == LiveSet(old(blocks))
      ensures |blocks| == |old(blocks)| - 1 && blocks[i].addr == current && blocks[0].addr == old(blocks[0]).addr
      ensures Tiles(blocks, HEAP_START, HEAP_END) && Linked(bytes, blocks) && Marked(bytes, at) && Clear(blocks, at)
      ensures PayloadsKept(m0, bytes, LiveSet(blocks))
      ensures blocks[..i] + Coalesce(blocks[i..]) == old(blocks)[..i] + Coalesce(old(blocks)[i..])
    {
      ghost var m, bs := bytes, blocks;
      TilesAt(bs, i, HEAP_START, HEAP_END);
      TilesAt(bs, i + 1, HEAP_START, HEAP_END);
      NextFits(bs, i + 1);
      LinkedAt(bytes, blocks, i);
      WriteHeader(current, h.(size := h.size + next.size, next := next.next));
      MergedLinked(m, bytes, bs, i);
      MergedMarked(m, bytes, bs, i, at);
      JoinedCoalesce(bs, i);
      PayloadsTwice(m0, m, bytes, LiveSet(bs), LiveSet(bs));
      blocks := Joined(blocks, i);
    }

    /** `kfree`: ignores null, a pointer without a header before it, and one whose header says free; so a
        second free of the same pointer is ignored. The bounds come first here, since only the heap's
        bytes are at hand. */
    method Kfree(ptr: u32)
      requires Valid() && (ptr == 0 || ptr in Ptrs(blocks) || Ignored(bytes, ptr))
      modifies this
      ensures Valid() && blocks == Free(old(blocks), ptr)
      ensures PayloadsKept(old(bytes), bytes, LiveSet(blocks))
      ensures ptr !in Ptrs(old(blocks)) ==> bytes == old(bytes)
      ensures ptr != 0 ==> Ignored(bytes, ptr)
    {
      PayloadsSame(bytes, blocks);
      PtrsOf(blocks, ptr);
      if ptr == 0 {
        return;
      }
      var block := BlockOf(ptr);
      if Find(blocks, ptr) < |blocks| {
        BlockHeader(bytes, blocks, ptr);
      }
      if block < HEAP_START || block >= HEAP_END {
        return;
      }
      var h := ReadHeader(block);
      if h.magic != HEAP_MAGIC {
        return;
      }
      if h.isFree != 0 {
        return;
      }
      FreeBlock(block, h, Find(blocks, ptr));
    }

    /** The free proper: the header marked, then the pass over the chain. */
    method FreeBlock(block: nat, h: Header, ghost i: nat)
      requires Valid() && i < |blocks| && block == blocks[i].addr && h == HeaderOf(blocks, i) && LinkAt(bytes, blocks, i)
      modifies this
      ensures Valid() && blocks == Release(old(blocks), i)
      ensures PayloadsKept(old(bytes), bytes, LiveSet(blocks)) && Marked(bytes, block)
    {
      ghost var m, bs := bytes, blocks;
      WriteHeader(block, h.(isFree := 1));
      FreedLinked(m, bytes, bs, i);
      blocks := blocks[i := blocks[i].(free := true)];
      ghost var m', bs' := bytes, blocks;
      PayloadsReflect(m, m', LiveSet(bs'));
      CoalesceFreeBlocks(block);
      PayloadsTwice(m, m', bytes, LiveSet(bs'), LiveSet(blocks));
    }

    /** `krealloc`. A moved block takes its whole old payload along; no other allocated payload changes. */
    method Krealloc(ptr: u32, size: u32) returns (r: nat)
      requires Valid() && (ptr == 0 || ptr in Ptrs(blocks) || Rejected(bytes, ptr)) && CopyFits(blocks, ptr, size)
      modifies this
      ensures Valid() && Reply(blocks, r) == Realloc(old(blocks), ptr, size)
      ensures PayloadsKept(old(bytes), bytes, Others(old(blocks), ptr))
      ensures ptr != 0 && size != 0 && (r == 0 || r == ptr) ==> bytes == old(bytes)
      ensures ptr != 0 && ptr !in Ptrs(old(blocks)) ==> r == 0 && blocks == old(blocks) && bytes == old(bytes)
      ensures ptr != 0 && r != 0 && r != ptr ==> Moved(old(bytes), bytes, ptr, r, SizeAt(old(blocks), ptr) - 16)
    {
      FreeExact(blocks, ptr);
      if ptr == 0 {
        r := Kmalloc(size);
        return;
      }
      if ptr !in Ptrs(blocks) {
        RejectedNone(bytes, blocks, ptr);
      }
      if size == 0 {
        Kfree(ptr);
        r := 0;
        return;
      }
      r := Resize(ptr, size);
    }

    /** `krealloc` of a pointer that is not null to a size that is not 0. */
    method Resize(ptr: u32, size: u32) returns (r: nat)
      requires Valid() && (ptr in Ptrs(blocks) || Rejected(bytes, ptr)) && CopyFits(blocks, ptr, size) && ptr != 0 && size != 0
      modifies this
      ensures Valid() && Reply(blocks, r) == Realloc(old(blocks), ptr, size)
      ensures PayloadsKept(old(bytes), bytes, Others(old(blocks), ptr))
      ensures r == 0 || r == ptr ==> bytes == old(bytes)
      ensures r != 0 && r != ptr ==> Moved(old(bytes), bytes, ptr, r, SizeAt(old(blocks), ptr) - 16)
    {
      if ptr in Ptrs(blocks) {
        PtrsOf(blocks, ptr);
        BlockHeader(bytes, blocks, ptr);
      } else {
        RejectedNone(bytes, blocks, ptr);
      }
      var h := ReadHeader(BlockOf(ptr));
      if h.magic != HEAP_MAGIC {
        PayloadsSame(bytes, blocks);
        OthersKept(bytes, blocks, ptr);
        r := 0;
        return;
      }
      r := ResizeBlock(ptr, size, h.size);
    }

    /** `krealloc` of an allocated block of `total` bytes. */
    method ResizeBlock(ptr: u32, size: u32, total: nat) returns (r: nat)
      requires Valid() && ptr in Ptrs(blocks) && total == SizeAt(blocks, ptr) && CopyFits(blocks, ptr, size) && ptr != 0 && size != 0
      modifies this
      ensures Valid() && Reply(blocks, r) == Realloc(old(blocks), ptr, size)
      ensures PayloadsKept(old(bytes), bytes, Others(old(blocks), ptr))
      ensures r == 0 || r == ptr ==> bytes == old(bytes)
      ensures r != 0 && r != ptr ==> Moved(old(bytes), bytes, ptr, r, total - 16)
    {
      ReallocCases(blocks, ptr, size);
      if size <= total - 16 {
        PayloadsSame(bytes, blocks);
        OthersKept(bytes, blocks, ptr);
        r := ptr;
        return;
      }
      r := Move(ptr, size, total - 16);
    }

    /** The rest of `krealloc`: a new block, the old payload copied into it, the old block freed. */
    method Move(ptr: u32, size: u32, currentSize: nat) returns (r: nat)
      requires Valid() && ptr in Ptrs(blocks) && currentSize == SizeAt(blocks, ptr) - 16 < size && CopyFits(blocks, ptr, size)
      modifies this
      ensures Valid()
      ensures var m := Malloc(old(blocks), size);
              r == m.ptr && r != ptr && blocks == if r == 0 then old(blocks) else Free(m.blocks, ptr)
      ensures PayloadsKept(old(bytes), bytes, Others(old(blocks), ptr))
      ensures r == 0 ==> bytes == old(bytes)
      ensures r != 0 ==> Moved(old(bytes), bytes, ptr, r, currentSize)
    {
      ghost var m0, bs := bytes, blocks;
      PtrsOf(bs, ptr);
      r := Kmalloc(size);
      if r == 0 {
        return;
      }
      ghost var m1, bs' := bytes, blocks;
      ghost var b := MoveRoom(bs, ptr, size, currentSize);
      CopyBytes(ptr, r, currentSize);
      ghost var m2 := bytes;
      CopiedRoom(m1, m2, bs, bs', b, ptr, r, currentSize);
      Kfree(ptr);
      MoveDone(bs, ptr, size, currentSize, m0, m1, m2, bytes, b, r);
    }

    /** The holder of a block writes into its payload. */
    method FillPayload(ptr: u32, off: nat, data: seq<byte>)
      requires Valid() && ptr in Ptrs(blocks) && 16 + off + |data| <= SizeAt(blocks, ptr)
      modifies `bytes
      ensures Valid() && PayloadsKept(old(bytes), bytes, Others(blocks, ptr))
      ensures forall b, x :: b in LiveSet(blocks) && b.addr + 16 == ptr && PayloadIs(old(bytes), b, x) ==>
                off + |data| <= |x| && PayloadIs(bytes, b, Patch(x, off, data))
    {
      PtrsOf(blocks, ptr);
      OneAt(blocks, ptr);
      ghost var m, k := bytes, Find(blocks, ptr);
      TilesAt(blocks, k, HEAP_START, HEAP_END);
      bytes := Patch(bytes, ptr + off - HEAP_START, data);
      assert Poked(m, blocks[k].addr + 16 + off, data, bytes);
      PokedSound(m, bytes, blocks, k, off, data);
      forall b, x | b in LiveSet(blocks) && b.addr + 16 == ptr && PayloadIs(m, b, x)
        ensures off + |data| <= |x| && PayloadIs(bytes, b, Patch(x, off, data))
      {
        assert b == blocks[k];
        PokedInside(m, off, data, bytes, b, x);
      }
    }

    /** `heap_get_used_size`. */
    method UsedSize() returns (used: nat)
      requires Valid()
      ensures used == UsedBytes(blocks) == TotalSize(LiveSet(blocks))
    {
      SizesAdd(blocks, HEAP_START, HEAP_END);
      used := 0;
      var current := head;
      ghost var i := 0;
      assert blocks[0..] == blocks;
      while current != 0
        invariant i <= |blocks| && current == AddrAt(blocks, i)
        invariant used + UsedBytes(blocks[i..]) == UsedBytes(blocks)
        decreases |blocks| - i
      {
        LinkedAt(bytes, blocks, i);
        assert blocks[i..][1..] == blocks[i + 1..];
        var h := ReadHeader(current);
        if h.isFree == 0 {
          used := used + h.size;
        }
        current := h.next;
        i := i + 1;
      }
      AddrNull(blocks, i);
    }

    /** `heap_get_free_size`: what is not used of the 4 MB. */
    method FreeSize() returns (free: nat)
      requires Valid()
      ensures free == FreeBytes(blocks) == TotalSize(FreeSet(blocks)) && TotalSize(LiveSet(blocks)) + free == HEAP_SIZE
    {
      SizesAdd(blocks, HEAP_START, HEAP_END);
      free := 0;
      var current := head;
      ghost var i := 0;
      assert blocks[0..] == blocks;
      while current != 0
        invariant i <= |blocks| && current == AddrAt(blocks, i)
        invariant free + FreeBytes(blocks[i..]) == FreeBytes(blocks)
        decreases |blocks| - i
      {
        LinkedAt(bytes, blocks, i);
        assert blocks[i..][1..] == blocks[i + 1..];
        var h := ReadHeader(current);
        if h.isFree != 0 {
          free := free + h.size;
        }
        current := h.next;
        i := i + 1;
      }
      AddrNull(blocks, i);
      BytesTile(blocks, HEAP_START, HEAP_END);
    }
  }

  // ---------------------------------------------------------------- a holder's own writes

  /** A write inside the payload of block `k` changes no header and no other payload. */
  lemma PokedSound(m: Bytes, m': Bytes, bs: seq<Block>, k: nat, off: nat, data: seq<byte>)
    requires Sound(m, bs) && k < |bs| && Poked(m, bs[k].addr + 16 + off, data, m') && 16 + off + |data| <= bs[k].size
    ensures Sound(m', bs) && PayloadsKept(m, m', LiveSet(bs) - {bs[k]})
  {
    var at := bs[k].addr + 16 + off;
    forall j | 0 <= j < |bs| ensures LinkAt(m', bs, j) {
      LinkedAt(m, bs, j);
      if j != k {
        AtDistinct(bs, j, k);
      }
      PokedApart(m, at, data, m', bs[j].addr, HeaderOf(bs, j));
    }
    forall b | b in LiveSet(bs) - {bs[k]} ensures PayloadKept(m, m', b) {
      var j :| 0 <= j < |bs| && bs[j] == b;
      TilesAt(bs, j, HEAP_START, HEAP_END);
      AtDistinct(bs, j, k);
      PokedPayload(m, at, data, m', b);
    }
  }

  // ---------------------------------------------------------------- runs

  /** What happens to the heap in a run: a call, or a holder writing into its payload. */
  datatype Act = Make(call: Call) | Fill(ptr: u32, off: nat, data: seq<byte>)

  function ActStep(w: World, a: Act): World {
    if a.Make? then Step(w, a.call) else w
  }

  function ActReply(w: World, a: Act): nat {
    if a.Make? then ReplyTo(w, a.call) else 0
  }

  /** Calls as allowed, frees of held pointers or null, and writes inside a held payload. */
  predicate ActAllowed(w: World, a: Act) {
    match a
    case Make(c) => Allowed(w, c) && (c.CallFree? ==> c.ptr == 0 || c.ptr in w.held)
    case Fill(ptr, off, data) => ptr in w.held && 16 + off + |data| <= SizeAt(w.blocks, ptr)
  }

  function ActSteps(w: World, acts: seq<Act>): World
    decreases |acts|
  {
    if acts == [] then w else ActSteps(ActStep(w, acts[0]), acts[1..])
  }

  function ActReplies(w: World, acts: seq<Act>): (r: seq<nat>)
    ensures |r| == |acts|
    decreases |acts|
  {
    if acts == [] then [] else [ActReply(w, acts[0])] + ActReplies(ActStep(w, acts[0]), acts[1..])
  }

  predicate ActsAllowed(w: World, acts: seq<Act>)
    decreases |acts|
  {
    acts != [] ==> ActAllowed(w, acts[0]) && ActsAllowed(ActStep(w, acts[0]), acts[1..])
  }

  /** Without writes, an allowed run of calls is the list model's run. */
  lemma {:induction false} OnlyCalls(w: World, calls: seq<Call>)
    requires AllowedRun(w, calls) && FreesHeld(w, calls)
    ensures var acts := seq(|calls|, i requires 0 <= i < |calls| => Make(calls[i]));
            ActsAllowed(w, acts) && ActSteps(w, acts) == Steps(w, calls) && ActReplies(w, acts) == Replies(w, calls)
    decreases |calls|
  {
    var acts := seq(|calls|, i requires 0 <= i < |calls| => Make(calls[i]));
    if calls != [] {
      OnlyCalls(Step(w, calls[0]), calls[1..]);
      assert acts[1..] == seq(|calls[1..]|, i requires 0 <= i < |calls[1..]| => Make(calls[1..][i]));
    }
  }

  /** The pointers given to calls of a run. */
  function Given(acts: seq<Act>): set<nat> {
    set a | a in acts && a.Make? :: PtrOf(a.call)
  }

  /** What a payload `x` of pointer `p` becomes by the writes of its holder. */
  function FilledBy(p: nat, x: seq<byte>, a: Act): (r: seq<byte>)
    ensures |r| == |x|
  {
    if a.Fill? && a.ptr == p && a.off + |a.data| <= |x| then Patch(x, a.off, a.data) else x
  }

  function Filled(p: nat, x: seq<byte>, acts: seq<Act>): (r: seq<byte>)
    ensures |r| == |x|
  {
    if acts == [] then x else FilledBy(p, Filled(p, x, acts[..|acts| - 1]), acts[|acts| - 1])
  }

  /** Every block of `bs` whose pointer is given to no call is still allocated in `bs'`, and its payload
      is what it was in `m` with its holder's writes `done`. */
  ghost predicate Holders(m: Bytes, m': Bytes, bs: seq<Block>, bs': seq<Block>, given: set<nat>, done: seq<Act>) {
    forall b, x :: b in LiveSet(bs) && b.addr + 16 !in given && PayloadIs(m, b, x) ==>
      b in LiveSet(bs') && PayloadIs(m', b, Filled(b.addr + 16, x, done))
  }

  lemma HoldersStart(m: Bytes, bs: seq<Block>, given: set<nat>)
    ensures Holders(m, m, bs, bs, given, [])
  {
  }

  /** What one act does to the payloads. */
  ghost predicate Acted(m: Bytes, m': Bytes, bs: seq<Block>, bs': seq<Block>, a: Act) {
    match a
    case Make(c) => PayloadsKept(m, m', Others(bs, PtrOf(c))) && Others(bs, PtrOf(c)) <= LiveSet(bs')
    case Fill(ptr, off, data) =>
      && bs' == bs && PayloadsKept(m, m', Others(bs, ptr))
      && (forall b, x :: b in LiveSet(bs) && b.addr + 16 == ptr && PayloadIs(m, b, x) ==>
            off + |data| <= |x| && PayloadIs(m', b, Patch(x, off, data)))
  }

  lemma FilledNext(p: nat, x: seq<byte>, done: seq<Act>, a: Act)
    ensures Filled(p, x, done + [a]) == FilledBy(p, Filled(p, x, done), a)
  {
    assert (done + [a])[..|done|] == done;
  }

  /** One act and one payload whose pointer the act is not given for a call. */
  lemma ActedOn(m: Bytes, m': Bytes, bs: seq<Block>, bs': seq<Block>, a: Act, b: Block, y: seq<byte>)
    requires Acted(m, m', bs, bs', a) && b in LiveSet(bs) && PayloadIs(m, b, y) && (a.Make? ==> PtrOf(a.call) != b.addr + 16)
    ensures b in LiveSet(bs') && PayloadIs(m', b, FilledBy(b.addr + 16, y, a))
  {
    var p := b.addr + 16;
    if a.Make? || a.ptr != p {
      assert b in Others(bs, if a.Make? then PtrOf(a.call) else a.ptr);
      PayloadStays(m, m', b, y);
    }
  }

  lemma HoldersNext(m0: Bytes, m: Bytes, m': Bytes, bs0: seq<Block>, bs: seq<Block>, bs': seq<Block>, given: set<nat>,
                    done: seq<Act>, a: Act)
    requires Holders(m0, m, bs0, bs, given, done) && Acted(m, m', bs, bs', a) && (a.Make? ==> PtrOf(a.call) in given)
    ensures Holders(m0, m', bs0, bs', given, done + [a])
  {
    forall b, x | b in LiveSet(bs0) && b.addr + 16 !in given && PayloadIs(m0, b, x)
      ensures b in LiveSet(bs') && PayloadIs(m', b, Filled(b.addr + 16, x, done + [a]))
    {
      FilledNext(b.addr + 16, x, done, a);
      ActedOn(m, m', bs, bs', a, b, Filled(b.addr + 16, x, done));
    }
  }

  /** After `i` acts of a run the world is `w` and the replies were `rs`. Folded. */
  ghost predicate Reached(start: World, acts: seq<Act>, i: nat, w: World, rs: seq<nat>) {
    forall k {:trigger Unfold(OfRunState, k)} :: Unfold(OfRunState, k) ==>
      && i <= |acts| && Good(w) && ActsAllowed(w, acts[i..])
      && ActSteps(w, acts[i..]) == ActSteps(start, acts) && rs + ActReplies(w, acts[i..]) == ActReplies(start, acts)
  }

  lemma ReachedStart(start: World, acts: seq<Act>)
    requires Good(start) && ActsAllowed(start, acts)
    ensures Reached(start, acts, 0, start, [])
  {
    assert acts[0..] == acts;
  }

  lemma ReachedNext(start: World, acts: seq<Act>, i: nat, w: World, rs: seq<nat>)
    requires Reached(start, acts, i, w, rs) && i < |acts|
    ensures Good(w) && ActAllowed(w, acts[i])
    ensures Reached(start, acts, i + 1, ActStep(w, acts[i]), rs + [ActReply(w, acts[i])])
  {
    assert Unfold(OfRunState, 0);
    assert acts[i..][1..] == acts[i + 1..];
    if acts[i].Make? {
      StepKeeps(w, acts[i].call);
    }
  }

  lemma ReachedEnd(start: World, acts: seq<Act>, w: World, rs: seq<nat>)
    requires Reached(start, acts, |acts|, w, rs)
    ensures w == ActSteps(start, acts) && rs == ActReplies(start, acts)
  {
    assert Unfold(OfRunState, 0);
    assert acts[|acts|..] == [];
  }

  /** One call on the heap in memory: the list, the reply and the untouched payloads are the model's. */
  method DoCall(h: Heap, c: Call, ghost w: World) returns (r: nat)
    requires h.Valid() && Good(w) && w.blocks == h.blocks && Allowed(w, c) && (c.CallFree? ==> c.ptr == 0 || c.ptr in w.held)
    modifies h
    ensures h.Valid() && h.blocks == Step(w, c).blocks && r == ReplyTo(w, c)
    ensures PayloadsKept(old(h.bytes), h.bytes, Others(old(h.blocks), PtrOf(c)))
  {
    match c {
      case CallMalloc(size) =>
        r := h.Kmalloc(size);
      case CallFree(ptr) =>
        FreeExact(h.blocks, ptr);
        h.Kfree(ptr);
        r := 0;
      case CallRealloc(ptr, size) =>
        r := h.Krealloc(ptr, size);
    }
  }

  /** A call, or a write of a holder. */
  method DoAct(h: Heap, a: Act, ghost w: World) returns (r: nat)
    requires h.Valid() && Good(w) && w.blocks == h.blocks && ActAllowed(w, a)
    modifies h
    ensures h.Valid() && h.blocks == ActStep(w, a).blocks && r == ActReply(w, a)
    ensures Acted(old(h.bytes), h.bytes, old(h.blocks), h.blocks, a)
  {
    match a {
      case Make(c) =>
        StepOthers(w, c);
        r := DoCall(h, c, w);
      case Fill(ptr, off, data) =>
        h.FillPayload(ptr, off, data);
        r := 0;
    }
  }

  method NextAct(h: Heap, acts: seq<Act>, i: nat, rs: seq<nat>, ghost start: World, ghost w: World, ghost m0: Bytes)
    returns (rs': seq<nat>, ghost w': World)
    requires h.Valid() && i < |acts| && w.blocks == h.blocks && Reached(start, acts, i, w, rs)
    requires Holders(m0, h.bytes, start.blocks, h.blocks, Given(acts), acts[..i])
    modifies h
    ensures h.Valid() && w'.blocks == h.blocks && Reached(start, acts, i + 1, w', rs')
    ensures Holders(m0, h.bytes, start.blocks, h.blocks, Given(acts), acts[..i + 1])
  {
    ghost var m, bs := h.bytes, h.blocks;
    ReachedNext(start, acts, i, w, rs);
    var r := DoAct(h, acts[i], w);
    rs', w' := rs + [r], ActStep(w, acts[i]);
    HoldersNext(m0, m, h.bytes, start.blocks, bs, h.blocks, Given(acts), acts[..i], acts[i]);
    assert acts[..i] + [acts[i]] == acts[..i + 1];
  }

  /** Any allowed run of calls on the heap in memory, with holders writing into their payloads in between:
      the replies and the final list are those of the list model, and every block allocated before whose
      pointer is given to no call is still allocated and holds exactly what its holder wrote into it. */
  method Run(h: Heap, acts: seq<Act>) returns (rs: seq<nat>)
    requires h.Valid() && ActsAllowed(World(h.blocks, Ptrs(h.blocks)), acts)
    modifies h
    ensures h.Valid() && h.blocks == ActSteps(World(old(h.blocks), Ptrs(old(h.blocks))), acts).blocks
    ensures rs == ActReplies(World(old(h.blocks), Ptrs(old(h.blocks))), acts)
    ensures Holders(old(h.bytes), h.bytes, old(h.blocks), h.blocks, Given(acts), acts)
  {
    ghost var start := World(h.blocks, Ptrs(h.blocks));
    ghost var w := start;
    rs := [];
    ReachedStart(start, acts);
    HoldersStart(h.bytes, h.blocks, Given(acts));
    assert acts[..0] == [];
    var i := 0;
    while i < |acts|
      invariant i <= |acts| && h.Valid() && w.blocks == h.blocks && Reached(start, acts, i, w, rs)
      invariant Holders(old(h.bytes), h.bytes, start.blocks, h.blocks, Given(acts), acts[..i])
    {
      rs, w := NextAct(h, acts, i, rs, start, w, old(h.bytes));
      i := i + 1;
    }
    ReachedEnd(start, acts, w, rs);
    assert acts[..|acts|] == acts;
  }
}
