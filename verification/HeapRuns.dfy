/** The heap calls over lists of blocks, and what holds over every run of them. */
module HeapRuns {
  import opened Words
  import opened HeapBlocks

  datatype Reply = Reply(blocks: seq<Block>, ptr: nat)

  /** `kmalloc`: pointer 0 is the failure. */
  function Malloc(bs: seq<Block>, size: u32): (r: Reply) {
    if size == 0 then Reply(bs, 0)
    else
      var i := FirstFit(bs, Total(size));
      if i == |bs| then Reply(bs, 0) else Reply(Take(bs, i, Total(size)), bs[i].addr + 16)
  }

  /** The block a pointer was handed out for, or the length of the list. */
  function Find(bs: seq<Block>, ptr: nat): (i: nat)
    ensures i <= |bs|
    ensures i < |bs| ==> bs[i].addr + 16 == ptr
    ensures i == |bs| ==> forall j :: 0 <= j < |bs| ==> bs[j].addr + 16 != ptr
  {
    if bs == [] then 0
    else if bs[0].addr + 16 == ptr then 0
    else
      assert forall j :: 0 < j < |bs| ==> bs[j] == bs[1..][j - 1];
      Find(bs[1..], ptr) + 1
  }

  /** `kfree`: a pointer that is not an allocated block's changes nothing. */
  function Free(bs: seq<Block>, ptr: nat): (r: seq<Block>) {
    var i := Find(bs, ptr);
    if i < |bs| && !bs[i].free then Release(bs, i) else bs
  }

  /** `krealloc`: in place when the block is large enough, else allocate and free. */
  function Realloc(bs: seq<Block>, ptr: nat, size: u32): (r: Reply) {
    if ptr == 0 then Malloc(bs, size)
    else if size == 0 then Reply(Free(bs, ptr), 0)
    else
      var i := Find(bs, ptr);
      if i == |bs| then Reply(bs, 0)
      else if size <= bs[i].size - 16 then Reply(bs, ptr)
      else
        var m := Malloc(bs, size);
        if m.ptr == 0 then m else Reply(Free(m.blocks, ptr), m.ptr)
  }

  // ---------------------------------------------------------------- allocated blocks as a set

  function LiveSet(bs: seq<Block>): set<Block> {
    set b | b in bs && !b.free
  }

  /** The pointers of the allocated blocks. */
  function Ptrs(bs: seq<Block>): set<nat> {
    set b | b in bs && !b.free :: b.addr + 16
  }

  /** The allocated blocks other than a pointer's. */
  function Others(bs: seq<Block>, ptr: nat): set<Block> {
    set b | b in LiveSet(bs) && b.addr + 16 != ptr
  }

  lemma LiveSetIs(bs: seq<Block>, b: Block)
    ensures b in LiveSet(bs) <==> b in Live(bs)
  {
  }

  /** Blocks of a list lie apart, so a pointer names one of them. */
  lemma AtDistinct(bs: seq<Block>, i: nat, j: nat)
    requires Tiles(bs, HEAP_START, HEAP_END) && i < |bs| && j < |bs| && i != j
    ensures bs[i].End() <= bs[j].addr || bs[j].End() <= bs[i].addr
    ensures bs[i].size >= 32 && bs[j].size >= 32 && bs[i].addr != bs[j].addr
  {
    TilesAt(bs, i, HEAP_START, HEAP_END);
    TilesAt(bs, j, HEAP_START, HEAP_END);
    if i < j {
      Ordered(bs, i, j, HEAP_START, HEAP_END);
    } else {
      Ordered(bs, j, i, HEAP_START, HEAP_END);
    }
  }

  lemma FindAt(bs: seq<Block>, i: nat)
    requires HeapInv(bs) && i < |bs|
    ensures Find(bs, bs[i].addr + 16) == i
  {
    var j := Find(bs, bs[i].addr + 16);
    if j != i && j < |bs| {
      AtDistinct(bs, i, j);
    }
  }

  lemma ReleaseSet(bs: seq<Block>, i: nat)
    requires HeapInv(bs) && i < |bs| && !bs[i].free
    ensures LiveSet(Release(bs, i)) == LiveSet(bs) - {bs[i]}
  {
    ReleaseKeeps(bs, i);
    LiveAround(bs, i);
    forall b: Block ensures b in LiveSet(Release(bs, i)) <==> b in LiveSet(bs) && b != bs[i] {
      LiveSetIs(bs, b);
      LiveSetIs(Release(bs, i), b);
      assert b in Live(Release(bs, i)) <==> b in Live(bs[..i]) || b in Live(bs[i + 1..]);
      OnlyAt(bs, i, b);
    }
  }

  lemma OnlyAt(bs: seq<Block>, i: nat, b: Block)
    requires HeapInv(bs) && i < |bs|
    ensures b in Live(bs[..i]) || b in Live(bs[i + 1..]) ==> b != bs[i]
  {
    LiveMember(bs[..i], b);
    LiveMember(bs[i + 1..], b);
    if b in bs[..i] {
      var j :| 0 <= j < i && bs[j] == b;
      AtDistinct(bs, i, j);
    } else if b in bs[i + 1..] {
      var j :| 0 <= j < |bs[i + 1..]| && bs[i + 1..][j] == b;
      AtDistinct(bs, i, i + 1 + j);
    }
  }

  lemma TakeSet(bs: seq<Block>, i: nat, total: nat)
    requires HeapInv(bs) && i < |bs| && bs[i].free && 32 <= total <= bs[i].size && total % 4 == 0
    ensures LiveSet(Take(bs, i, total)) == LiveSet(bs) + {Pieces(bs[i], total)[0]}
  {
  }

  lemma PtrsOf(bs: seq<Block>, p: nat)
    requires HeapInv(bs)
    ensures p in Ptrs(bs) <==> Find(bs, p) < |bs| && !bs[Find(bs, p)].free
  {
    if p in Ptrs(bs) {
      var b :| b in bs && !b.free && b.addr + 16 == p;
      var j :| 0 <= j < |bs| && bs[j] == b;
      FindAt(bs, j);
    }
  }

  // ---------------------------------------------------------------- what each call does

  /** `kmalloc` fails exactly when the request is 0 or no gap holds the rounded request and its
      header; otherwise it takes the lowest such gap, and adds exactly one allocated block there. */
  lemma MallocExact(bs: seq<Block>, size: u32)
    requires HeapInv(bs)
    ensures var r := Malloc(bs, size);
            HeapInv(r.blocks)
            && (r.ptr == 0 <==> size == 0 || !exists a: nat :: Gap(bs, a, Total(size)))
            && (r.ptr == 0 ==> r.blocks == bs)
            && (r.ptr != 0 ==>
                  r.ptr >= 16 && Gap(bs, r.ptr - 16, Total(size))
                  && (forall a: nat :: Gap(bs, a, Total(size)) ==> r.ptr - 16 <= a))
  {
    var total := Total(size);
    FirstFitExact(bs, total);
    var i := FirstFit(bs, total);
    if size != 0 && i < |bs| {
      TakeKeeps(bs, i, total);
    }
  }

  /** The new block: big enough for any request that does not wrap, in a place no allocated block
      had, and everything allocated before is still there, unchanged. */
  lemma MallocBlock(bs: seq<Block>, size: u32) returns (b: Block)
    requires HeapInv(bs) && Malloc(bs, size).ptr != 0
    ensures b.addr + 16 == Malloc(bs, size).ptr && !b.free
    ensures LiveSet(Malloc(bs, size).blocks) == LiveSet(bs) + {b}
    ensures size <= MAX_REQUEST ==> size <= b.size - 16
    ensures Total(size) <= b.size < Total(size) + 32 && b.addr % 4 == 0
    ensures forall o :: o in LiveSet(bs) ==> o.End() <= b.addr || b.End() <= o.addr
  {
    var total := Total(size);
    var i := FirstFit(bs, total);
    TakeSet(bs, i, total);
    TotalHolds(size);
    TilesAt(bs, i, HEAP_START, HEAP_END);
    FreeIsGap(bs, i);
    b := Pieces(bs[i], total)[0];
  }

  /** Freeing what was just allocated restores the list exactly. */
  lemma FreeUndoesMalloc(bs: seq<Block>, size: u32)
    requires HeapInv(bs) && Malloc(bs, size).ptr != 0
    ensures Free(Malloc(bs, size).blocks, Malloc(bs, size).ptr) == bs
  {
    var i := FirstFit(bs, Total(size));
    var m := Take(bs, i, Total(size));
    TakeKeeps(bs, i, Total(size));
    assert m[i] == Pieces(bs[i], Total(size))[0];
    FindAt(m, i);
    FreeUndoesTake(bs, i, Total(size));
  }

  /** `kfree` removes exactly the pointer's block, and ignores every other pointer. */
  lemma FreeExact(bs: seq<Block>, ptr: nat)
    requires HeapInv(bs)
    ensures HeapInv(Free(bs, ptr))
    ensures LiveSet(Free(bs, ptr)) == Others(bs, ptr)
    ensures ptr !in Ptrs(bs) ==> Free(bs, ptr) == bs
  {
    var i := Find(bs, ptr);
    PtrsOf(bs, ptr);
    if i < |bs| && !bs[i].free {
      ReleaseKeeps(bs, i);
      ReleaseSet(bs, i);
      forall b | b in LiveSet(bs) && b.addr + 16 == ptr ensures b == bs[i] {
        var j :| 0 <= j < |bs| && bs[j] == b;
        FindAt(bs, j);
      }
    } else {
      forall b | b in LiveSet(bs) ensures b.addr + 16 != ptr {
        assert b.addr + 16 in Ptrs(bs);
      }
    }
  }

  /** `krealloc` of an allocated block keeps or moves that block alone: the block stays where it is exactly
      when its payload holds the request; otherwise a failure, exactly when no gap will do, leaves everything
      as it was, and a success takes the lowest such gap. The block at the new pointer holds the request. */
  lemma ReallocExact(bs: seq<Block>, ptr: nat, size: u32) returns (b: Block)
    requires HeapInv(bs) && ptr in Ptrs(bs) && size != 0
    ensures var r := Realloc(bs, ptr, size);
            HeapInv(r.blocks)
            && (r.ptr == ptr <==> size + 16 <= SizeAt(bs, ptr))
            && (r.ptr == 0 <==> size + 16 > SizeAt(bs, ptr) && !exists a: nat :: Gap(bs, a, Total(size)))
            && (r.ptr == 0 || r.ptr == ptr ==> r.blocks == bs)
            && (r.ptr != 0 && r.ptr != ptr ==>
                  r.ptr >= 16 && Gap(bs, r.ptr - 16, Total(size)) && forall a: nat :: Gap(bs, a, Total(size)) ==> r.ptr - 16 <= a)
            && (r.ptr != 0 ==>
                  b.addr + 16 == r.ptr && !b.free && (size <= MAX_REQUEST ==> size <= b.size - 16)
                  && LiveSet(r.blocks) == Others(bs, ptr) + {b})
  {
    PtrsOf(bs, ptr);
    b := bs[Find(bs, ptr)];
    if size <= b.size - 16 {
      OneAt(bs, ptr);
    } else {
      MallocExact(bs, size);
      if Malloc(bs, size).ptr != 0 {
        b := MovedExact(bs, ptr, size);
      }
    }
  }

  /** `krealloc` of no pointer allocates: it fails when the request is 0 or no gap will do, and otherwise adds
      one block at the lowest gap that will. */
  lemma ReallocNull(bs: seq<Block>, size: u32) returns (b: Block)
    requires HeapInv(bs)
    ensures var r := Realloc(bs, 0, size);
            HeapInv(r.blocks)
            && (r.ptr == 0 <==> size == 0 || !exists a: nat :: Gap(bs, a, Total(size)))
            && (r.ptr == 0 ==> r.blocks == bs)
            && (r.ptr != 0 ==>
                  r.ptr >= 16 && Gap(bs, r.ptr - 16, Total(size))
                  && (forall a: nat :: Gap(bs, a, Total(size)) ==> r.ptr - 16 <= a)
                  && b.addr + 16 == r.ptr && !b.free && LiveSet(r.blocks) == LiveSet(bs) + {b}
                  && Total(size) <= b.size < Total(size) + 32)
  {
    MallocExact(bs, size);
    if Malloc(bs, size).ptr != 0 {
      b := MallocBlock(bs, size);
    } else {
      b := Block(0, 0, true);
    }
  }

  /** `krealloc` to size 0 frees: it returns 0, and of the allocated blocks exactly the pointer's is gone. */
  lemma ReallocZero(bs: seq<Block>, ptr: nat)
    requires HeapInv(bs)
    ensures var r := Realloc(bs, ptr, 0);
            HeapInv(r.blocks) && r.ptr == 0 && LiveSet(r.blocks) == Others(bs, ptr)
  {
    FreeExact(bs, ptr);
    if ptr == 0 {
      MallocExact(bs, 0);
      assert forall b :: b in LiveSet(bs) ==> b.addr + 16 != 0;
    }
  }

  lemma OneAt(bs: seq<Block>, ptr: nat)
    requires HeapInv(bs) && ptr in Ptrs(bs)
    ensures Find(bs, ptr) < |bs|
    ensures LiveSet(bs) == Others(bs, ptr) + {bs[Find(bs, ptr)]}
  {
    PtrsOf(bs, ptr);
    forall o | o in LiveSet(bs) && o.addr + 16 == ptr ensures o == bs[Find(bs, ptr)] {
      var j :| 0 <= j < |bs| && bs[j] == o;
      FindAt(bs, j);
    }
  }

  lemma MovedExact(bs: seq<Block>, ptr: nat, size: u32) returns (b: Block)
    requires HeapInv(bs) && ptr in Ptrs(bs) && Malloc(bs, size).ptr != 0
    ensures b.addr + 16 == Malloc(bs, size).ptr != ptr && !b.free && (size <= MAX_REQUEST ==> size <= b.size - 16)
    ensures var after := Free(Malloc(bs, size).blocks, ptr);
            HeapInv(after) && LiveSet(after) == Others(bs, ptr) + {b}
  {
    PtrsOf(bs, ptr);
    var i := Find(bs, ptr);
    MallocExact(bs, size);
    b := MallocBlock(bs, size);
    var m := Malloc(bs, size).blocks;
    FreeExact(m, ptr);
    TilesAt(bs, i, HEAP_START, HEAP_END);
    assert bs[i] in LiveSet(bs);
    assert b.addr + 16 != ptr;
    assert Others(m, ptr) == Others(bs, ptr) + {b};
  }

  // ---------------------------------------------------------------- the copy of a moved block

  /** The size of a pointer's block, header included; 0 for no block's pointer. */
  function SizeAt(bs: seq<Block>, ptr: nat): nat {
    var i := Find(bs, ptr);
    if i < |bs| then bs[i].size else 0
  }

  /** The size of the block that a request gets: the rounded request, or the whole first fit when too
      little would remain. */
  function TakenSize(bs: seq<Block>, size: u32): nat {
    var i := FirstFit(bs, Total(size));
    if size == 0 || i == |bs| then 0 else if bs[i].size >= Total(size) + 32 then Total(size) else bs[i].size
  }

  /** `krealloc` copies nothing, or into a block that is no smaller. */
  predicate CopyFits(bs: seq<Block>, ptr: nat, size: u32) {
    || ptr == 0 || size == 0 || size + 16 <= SizeAt(bs, ptr) || Malloc(bs, size).ptr == 0
    || SizeAt(bs, ptr) <= TakenSize(bs, size)
  }

  /** A request whose rounding does not wrap gets a block that the old payload fits. */
  lemma SmallCopyFits(bs: seq<Block>, ptr: nat, size: u32)
    requires size <= MAX_REQUEST
    ensures CopyFits(bs, ptr, size)
  {
    if size > 0 {
      TotalHolds(size);
    }
  }

  /** For a request that wraps: the copy of the whole old payload leaves the new block if and only if the
      old block is larger than the new one. An old block of 32 bytes never is, one of 64 always is. */
  lemma OverrunIff(bs: seq<Block>, ptr: nat, size: u32) returns (b: Block)
    requires HeapInv(bs) && ptr in Ptrs(bs) && size > MAX_REQUEST && Malloc(bs, size).ptr != 0
    ensures b in LiveSet(Malloc(bs, size).blocks) && b.addr + 16 == Malloc(bs, size).ptr && b.size == TakenSize(bs, size)
    ensures Malloc(bs, size).ptr + (SizeAt(bs, ptr) - 16) > b.End() <==> !CopyFits(bs, ptr, size)
    ensures SizeAt(bs, ptr) == 32 ==> CopyFits(bs, ptr, size)
    ensures SizeAt(bs, ptr) >= 64 ==> !CopyFits(bs, ptr, size)
  {
    PtrsOf(bs, ptr);
    TilesAt(bs, Find(bs, ptr), HEAP_START, HEAP_END);
    TilesAt(bs, FirstFit(bs, Total(size)), HEAP_START, HEAP_END);
    InHeapSize(bs, Find(bs, ptr));
    TotalWraps(size);
    TakeSet(bs, FirstFit(bs, Total(size)), Total(size));
    b := Pieces(bs[FirstFit(bs, Total(size))], Total(size))[0];
  }

  lemma InHeapSize(bs: seq<Block>, i: nat)
    requires HeapInv(bs) && i < |bs|
    ensures bs[i].size <= HEAP_SIZE
  {
    TilesAt(bs, i, HEAP_START, HEAP_END);
  }

  /** On a new heap: krealloc(kmalloc(100), 0xFFFFFFFF) copies 100 bytes into a payload of 16. */
  lemma OverrunExample()
    ensures var m := Malloc(INITIAL, 100);
            && m.ptr == 0x20_0010 && SizeAt(m.blocks, m.ptr) == 116
            && TakenSize(m.blocks, 0xFFFF_FFFF) == 32 && !CopyFits(m.blocks, m.ptr, 0xFFFF_FFFF)
  {
    InitialInv();
    var m := Malloc(INITIAL, 100);
    assert FirstFit(INITIAL, 116) == 0 && INITIAL[1..] == [];
    assert m.blocks == [Block(0x20_0000, 116, false), Block(0x20_0074, 0x3F_FF8C, true)];
    TotalWraps(0xFFFF_FFFF);
    assert FirstFit(m.blocks, 32) == 1;
  }

  // ---------------------------------------------------------------- runs

  datatype Call = CallMalloc(size: u32) | CallFree(ptr: u32) | CallRealloc(ptr: u32, size: u32)

  /** The block list, and the pointers the callers have been given and have not given back. */
  datatype World = World(blocks: seq<Block>, held: set<nat>)

  function Handed(held: set<nat>, ptr: nat): set<nat> {
    if ptr == 0 then held else held + {ptr}
  }

  function Step(w: World, c: Call): (r: World) {
    match c
    case CallMalloc(size) =>
      var m := Malloc(w.blocks, size);
      World(m.blocks, Handed(w.held, m.ptr))
    case CallFree(ptr) => World(Free(w.blocks, ptr), w.held - {ptr})
    case CallRealloc(ptr, size) =>
      var m := Realloc(w.blocks, ptr, size);
      World(m.blocks, if m.ptr == 0 && size != 0 then w.held else Handed(w.held - {ptr}, m.ptr))
  }

  /** Only a held pointer, or none, is passed to `krealloc`, and its copy does not leave the new block. */
  predicate Allowed(w: World, c: Call) {
    c.CallRealloc? ==> (c.ptr == 0 || c.ptr in w.held) && CopyFits(w.blocks, c.ptr, c.size)
  }

  /** What a call returns; `kfree` returns nothing. */
  function ReplyTo(w: World, c: Call): nat {
    match c
    case CallMalloc(size) => Malloc(w.blocks, size).ptr
    case CallFree(_) => 0
    case CallRealloc(ptr, size) => Realloc(w.blocks, ptr, size).ptr
  }

  /** The pointer a call is given. */
  function PtrOf(c: Call): nat {
    if c.CallMalloc? then 0 else c.ptr
  }

  function Steps(w: World, calls: seq<Call>): (r: World)
    decreases |calls|
  {
    if calls == [] then w else Steps(Step(w, calls[0]), calls[1..])
  }

  predicate AllowedRun(w: World, calls: seq<Call>)
    decreases |calls|
  {
    calls != [] ==> Allowed(w, calls[0]) && AllowedRun(Step(w, calls[0]), calls[1..])
  }

  /** What the calls of a run return, in order. */
  function Replies(w: World, calls: seq<Call>): (r: seq<nat>)
    ensures |r| == |calls|
    decreases |calls|
  {
    if calls == [] then [] else [ReplyTo(w, calls[0])] + Replies(Step(w, calls[0]), calls[1..])
  }

  /** Every pointer freed is held, or null. */
  predicate FreesHeld(w: World, calls: seq<Call>)
    decreases |calls|
  {
    calls != [] ==>
      && (calls[0].CallFree? ==> calls[0].ptr == 0 || calls[0].ptr in w.held)
      && FreesHeld(Step(w, calls[0]), calls[1..])
  }

  const START: World := World(INITIAL, {})

  /** The list is in order and its allocated blocks are exactly what the callers hold. */
  ghost predicate Good(w: World) {
    HeapInv(w.blocks) && w.held == Ptrs(w.blocks)
  }

  lemma PtrsOfSet(bs: seq<Block>, p: nat)
    ensures p in Ptrs(bs) <==> exists b :: b in LiveSet(bs) && b.addr + 16 == p
  {
  }

  lemma MallocHeld(bs: seq<Block>, size: u32)
    requires HeapInv(bs)
    ensures Ptrs(Malloc(bs, size).blocks) == Handed(Ptrs(bs), Malloc(bs, size).ptr)
    ensures Malloc(bs, size).ptr !in Ptrs(bs)
  {
    var m := Malloc(bs, size);
    MallocExact(bs, size);
    if m.ptr != 0 {
      var b := MallocBlock(bs, size);
      forall p: nat ensures p in Ptrs(m.blocks) <==> p in Ptrs(bs) || p == m.ptr {
        PtrsOfSet(bs, p);
        PtrsOfSet(m.blocks, p);
      }
      forall o | o in LiveSet(bs) ensures o.addr + 16 != m.ptr {
        var j :| 0 <= j < |bs| && bs[j] == o;
        TilesAt(bs, j, HEAP_START, HEAP_END);
      }
    }
  }

  lemma FreeHeld(bs: seq<Block>, ptr: nat)
    requires HeapInv(bs)
    ensures Ptrs(Free(bs, ptr)) == Ptrs(bs) - {ptr}
  {
    FreeExact(bs, ptr);
    forall p: nat ensures p in Ptrs(Free(bs, ptr)) <==> p in Ptrs(bs) && p != ptr {
      PtrsOfSet(bs, p);
      PtrsOfSet(Free(bs, ptr), p);
    }
  }

  lemma StepKeeps(w: World, c: Call)
    requires Good(w) && Allowed(w, c)
    ensures Good(Step(w, c))
  {
    var bs := w.blocks;
    match c
    case CallMalloc(size) =>
      MallocExact(bs, size);
      MallocHeld(bs, size);
    case CallFree(ptr) =>
      FreeExact(bs, ptr);
      FreeHeld(bs, ptr);
    case CallRealloc(ptr, size) =>
      if ptr == 0 {
        MallocExact(bs, size);
        MallocHeld(bs, size);
        PtrsOf(bs, 0);
      } else if size == 0 {
        FreeExact(bs, ptr);
        FreeHeld(bs, ptr);
      } else {
        ReallocHeld(bs, ptr, size);
      }
  }

  lemma ReallocHeld(bs: seq<Block>, ptr: nat, size: u32)
    requires HeapInv(bs) && ptr in Ptrs(bs) && size != 0
    ensures var r := Realloc(bs, ptr, size);
            HeapInv(r.blocks)
            && Ptrs(r.blocks) == if r.ptr == 0 then Ptrs(bs) else Ptrs(bs) - {ptr} + {r.ptr}
  {
    var r := Realloc(bs, ptr, size);
    var b := ReallocExact(bs, ptr, size);
    if r.ptr != 0 {
      forall p: nat ensures p in Ptrs(r.blocks) <==> (p in Ptrs(bs) && p != ptr) || p == r.ptr {
        PtrsOfSet(bs, p);
        PtrsOfSet(r.blocks, p);
        assert b in LiveSet(r.blocks);
      }
    }
  }

  /** No call touches an allocated block whose pointer it is not given. */
  lemma StepOthers(w: World, c: Call)
    requires Good(w) && Allowed(w, c)
    ensures Others(w.blocks, PtrOf(c)) <= LiveSet(Step(w, c).blocks)
  {
    var bs := w.blocks;
    MallocKeepsLive(bs, if c.CallFree? then 0 else c.size);
    FreeExact(bs, PtrOf(c));
    if c.CallRealloc? && c.ptr != 0 && c.size != 0 {
      var _ := ReallocExact(bs, c.ptr, c.size);
    }
  }

  lemma MallocKeepsLive(bs: seq<Block>, size: u32)
    requires HeapInv(bs)
    ensures LiveSet(bs) <= LiveSet(Malloc(bs, size).blocks)
  {
    MallocExact(bs, size);
    if Malloc(bs, size).ptr != 0 {
      var _ := MallocBlock(bs, size);
    }
  }

  /** Over every run: the list tiles the heap with no free neighbours, and its allocated blocks are
      exactly the pointers given out and not given back. */
  lemma {:induction false} RunKeeps(w: World, calls: seq<Call>)
    requires Good(w) && AllowedRun(w, calls)
    ensures Good(Steps(w, calls))
    decreases |calls|
  {
    if calls != [] {
      StepKeeps(w, calls[0]);
      RunKeeps(Step(w, calls[0]), calls[1..]);
    }
  }

  lemma StartGood()
    ensures Good(START)
  {
  }

  lemma NoneHeld(bs: seq<Block>)
    ensures Live(bs) != [] ==> Ptrs(bs) != {}
  {
    if Live(bs) != [] {
      LiveMember(bs, Live(bs)[0]);
      assert Live(bs)[0].addr + 16 in Ptrs(bs);
    }
  }

  /** Once everything has been freed, in whatever order, the heap is the one block it started as. */
  lemma AllFreedRestores(calls: seq<Call>)
    requires AllowedRun(START, calls) && Steps(START, calls).held == {}
    ensures Steps(START, calls).blocks == INITIAL
  {
    StartGood();
    RunKeeps(START, calls);
    var bs := Steps(START, calls).blocks;
    NoneHeld(bs);
    AllFree(bs);
  }

  /** In every run, the payloads of two held pointers share no byte, and none reaches into a header. */
  lemma PayloadsApart(calls: seq<Call>, p: nat, q: nat)
    requires AllowedRun(START, calls)
    requires p in Steps(START, calls).held && q in Steps(START, calls).held && p != q
    ensures var bs := Steps(START, calls).blocks;
            var i, j := Find(bs, p), Find(bs, q);
            i < |bs| && j < |bs| && (p + (bs[i].size - 16) <= q - 16 || q + (bs[j].size - 16) <= p - 16)
  {
    StartGood();
    RunKeeps(START, calls);
    var bs := Steps(START, calls).blocks;
    PtrsOf(bs, p);
    PtrsOf(bs, q);
    AtDistinct(bs, Find(bs, p), Find(bs, q));
  }

  // ---------------------------------------------------------------- accounting

  function UsedBytes(bs: seq<Block>): nat {
    if bs == [] then 0 else (if bs[0].free then 0 else bs[0].size) + UsedBytes(bs[1..])
  }

  function FreeBytes(bs: seq<Block>): nat {
    if bs == [] then 0 else (if bs[0].free then bs[0].size else 0) + FreeBytes(bs[1..])
  }

  lemma {:induction false} BytesTile(bs: seq<Block>, lo: nat, hi: nat)
    requires Tiles(bs, lo, hi)
    ensures lo + UsedBytes(bs) + FreeBytes(bs) == hi
  {
    if bs != [] {
      BytesTile(bs[1..], lo + bs[0].size, hi);
    }
  }

  function FreeSet(bs: seq<Block>): set<Block> {
    set b | b in bs && b.free
  }

  /** The sizes of a set of blocks, added up in any order. */
  ghost function TotalSize(s: set<Block>): nat {
    if s == {} then 0
    else
      var b :| b in s;
      b.size + TotalSize(s - {b})
  }

  lemma {:induction false} TotalSizeWith(s: set<Block>, b: Block)
    requires b !in s
    ensures TotalSize(s + {b}) == TotalSize(s) + b.size
    decreases s
  {
    var t := s + {b};
    var c :| c in t && TotalSize(t) == c.size + TotalSize(t - {c});
    if c == b {
      assert t - {c} == s;
    } else {
      var rest := s - {c};
      assert t - {c} == rest + {b} && s == rest + {c};
      TotalSizeWith(rest, b);
      TotalSizeWith(rest, c);
    }
  }

  /** What the two sizes are: the allocated blocks' and the free blocks', headers included. */
  lemma {:induction false} SizesAdd(bs: seq<Block>, lo: nat, hi: nat)
    requires Tiles(bs, lo, hi)
    ensures UsedBytes(bs) == TotalSize(LiveSet(bs)) && FreeBytes(bs) == TotalSize(FreeSet(bs))
  {
    if bs != [] {
      var b, rest := bs[0], bs[1..];
      SizesAdd(rest, lo + b.size, hi);
      TilesFrom(rest, lo + b.size, hi);
      assert bs == [b] + rest;
      if b.free {
        assert FreeSet(bs) == FreeSet(rest) + {b} && LiveSet(bs) == LiveSet(rest);
        TotalSizeWith(FreeSet(rest), b);
      } else {
        assert LiveSet(bs) == LiveSet(rest) + {b} && FreeSet(bs) == FreeSet(rest);
        TotalSizeWith(LiveSet(rest), b);
      }
    }
  }

  lemma TilesFrom(bs: seq<Block>, lo: nat, hi: nat)
    requires Tiles(bs, lo, hi)
    ensures forall b :: b in bs ==> b.addr >= lo
  {
    forall b | b in bs ensures b.addr >= lo {
      var i :| 0 <= i < |bs| && bs[i] == b;
      TilesAt(bs, i, lo, hi);
    }
  }

  /** A new heap has nothing used and 4 MB free. A call moves the used size by exactly the sizes of the
      blocks it allocates and frees, and a call that fails or is ignored leaves it. */
  lemma UsedAtStart()
    ensures UsedBytes(INITIAL) == 0 && FreeBytes(INITIAL) == 0x40_0000
  {
    assert INITIAL[1..] == [];
  }

  lemma UsedAfterMalloc(bs: seq<Block>, size: u32) returns (b: Block)
    requires HeapInv(bs)
    ensures var r := Malloc(bs, size);
            if r.ptr == 0 then UsedBytes(r.blocks) == UsedBytes(bs)
            else
              && b.addr + 16 == r.ptr && LiveSet(r.blocks) == LiveSet(bs) + {b}
              && UsedBytes(r.blocks) == UsedBytes(bs) + b.size
  {
    var r := Malloc(bs, size);
    b := Block(0, 0, true);
    MallocExact(bs, size);
    if r.ptr != 0 {
      b := MallocBlock(bs, size);
      SizesAdd(bs, HEAP_START, HEAP_END);
      SizesAdd(r.blocks, HEAP_START, HEAP_END);
      MallocHeld(bs, size);
      assert b !in LiveSet(bs) by {
        PtrsOfSet(bs, r.ptr);
      }
      TotalSizeWith(LiveSet(bs), b);
    }
  }

  lemma UsedAfterFree(bs: seq<Block>, ptr: nat)
    requires HeapInv(bs)
    ensures UsedBytes(Free(bs, ptr)) == UsedBytes(bs) - if ptr in Ptrs(bs) then SizeAt(bs, ptr) else 0
  {
    FreeExact(bs, ptr);
    if ptr in Ptrs(bs) {
      OneAt(bs, ptr);
      SizesAdd(bs, HEAP_START, HEAP_END);
      SizesAdd(Free(bs, ptr), HEAP_START, HEAP_END);
      TotalSizeWith(Others(bs, ptr), bs[Find(bs, ptr)]);
    }
  }

  lemma UsedAfterRealloc(bs: seq<Block>, ptr: nat, size: u32)
    requires HeapInv(bs) && ptr in Ptrs(bs) && size != 0
    ensures var r := Realloc(bs, ptr, size);
            if r.ptr == 0 then UsedBytes(r.blocks) == UsedBytes(bs)
            else UsedBytes(r.blocks) + SizeAt(bs, ptr) == UsedBytes(bs) + SizeAt(r.blocks, r.ptr)
  {
    var r := Realloc(bs, ptr, size);
    var b := ReallocExact(bs, ptr, size);
    if r.ptr != 0 && r.ptr != ptr {
      var m := Malloc(bs, size);
      MallocExact(bs, size);
      var b' := UsedAfterMalloc(bs, size);
      UsedAfterFree(m.blocks, ptr);
      MallocHeld(bs, size);
      SameSizeAt(bs, m.blocks, ptr);
      assert b' in LiveSet(m.blocks);
      assert b' in LiveSet(r.blocks) by {
        FreeExact(m.blocks, ptr);
      }
      SizeAtIs(r.blocks, b');
    }
  }

  lemma SizeAtIs(bs: seq<Block>, b: Block)
    requires HeapInv(bs) && b in LiveSet(bs)
    ensures SizeAt(bs, b.addr + 16) == b.size
  {
    var j :| 0 <= j < |bs| && bs[j] == b;
    FindAt(bs, j);
  }

  lemma SameSizeAt(bs: seq<Block>, after: seq<Block>, ptr: nat)
    requires HeapInv(bs) && HeapInv(after) && ptr in Ptrs(bs) && LiveSet(bs) <= LiveSet(after)
    ensures SizeAt(after, ptr) == SizeAt(bs, ptr)
  {
    OneAt(bs, ptr);
    var b := bs[Find(bs, ptr)];
    assert b in LiveSet(after);
    SizeAtIs(after, b);
  }

  /** Over every run, used and free bytes add up to the 4 MB of the heap. */
  lemma BytesConserved(calls: seq<Call>)
    requires AllowedRun(START, calls)
    ensures var bs := Steps(START, calls).blocks;
            UsedBytes(bs) + FreeBytes(bs) == HEAP_SIZE
  {
    StartGood();
    RunKeeps(START, calls);
    BytesTile(Steps(START, calls).blocks, HEAP_START, HEAP_END);
  }
}
