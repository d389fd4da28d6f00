/** The heap's 4 MB of bytes: block headers and payloads live in the same memory. */
module HeapMemory {
  import opened Words
  import opened HeapBlocks
  import opened HeapRuns

  const HEAP_MAGIC: u32 := 0xDEAD_BEEF

  type Bytes = b: seq<byte> | |b| == 0x40_0000 witness seq(0x40_0000, _ => 0)

  /** `heap_block_t`: four words. */
  datatype Header = Header(size: nat, isFree: nat, magic: nat, next: nat) {
    predicate Fits() {
      size < 0x1_0000_0000 && isFree < 0x1_0000_0000 && magic < 0x1_0000_0000 && next < 0x1_0000_0000
    }

    function Words(): seq<u32>
      requires Fits()
    {
      [size, isFree, magic, next]
    }
  }

  /** Sixteen bytes from address `a` lie in the heap. */
  predicate InHeap(a: int) {
    HEAP_START <= a && a + 16 <= HEAP_END
  }

  // ---------------------------------------------------------------- bytes

  function HeaderAt(m: Bytes, a: nat): (h: Header)
    requires InHeap(a)
    ensures h.Fits()
  {
    var w := WordsAt(m, a - HEAP_START, 4);
    Header(w[0], w[1], w[2], w[3])
  }

  function PutHeader(m: Bytes, a: nat, h: Header): Bytes
    requires InHeap(a) && h.Fits()
  {
    Patch(m, a - HEAP_START, WordsBytes(h.Words()))
  }

  /** The bytes at addresses `lo` up to `hi`. */
  function Range(m: Bytes, lo: nat, hi: nat): (r: seq<byte>)
    requires HEAP_START <= lo <= hi <= HEAP_END
    ensures |r| == hi - lo
  {
    m[lo - HEAP_START..hi - HEAP_START]
  }

  predicate Spans(lo: nat, n: int) {
    0 <= n && HEAP_START <= lo && lo + n <= HEAP_END
  }

  /** `memcpy` inside the heap. */
  function PutCopy(m: Bytes, src: nat, dst: nat, n: nat): Bytes
    requires Spans(src, n) && Spans(dst, n)
  {
    Patch(m, dst - HEAP_START, Range(m, src, src + n))
  }

  // ---------------------------------------------------------------- the same, folded

  /** The words at address `a` are the header `h`. */
  ghost predicate HeaderIs(m: Bytes, a: nat, h: Header) {
    InHeap(a) && h.Fits() && forall k {:trigger Unfold(OfHeaderIs, k)} :: Unfold(OfHeaderIs, k) ==> HeaderAt(m, a) == h
  }

  /** `m'` is `m` with the header `h` written at `a`. */
  ghost predicate Written(m: Bytes, a: nat, h: Header, m': Bytes) {
    InHeap(a) && h.Fits() && forall k {:trigger Unfold(OfWritten, k)} :: Unfold(OfWritten, k) ==> m' == PutHeader(m, a, h)
  }

  /** `m'` is `m` with `n` bytes copied from `src` to `dst`. */
  ghost predicate CopiedTo(m: Bytes, src: nat, dst: nat, n: nat, m': Bytes) {
    && Spans(src, n) && Spans(dst, n)
    && forall k {:trigger Unfold(OfCopied, k)} :: Unfold(OfCopied, k) ==> m' == PutCopy(m, src, dst, n)
  }

  /** The payload of block `b` holds the same bytes in both memories. */
  ghost predicate PayloadKept(m: Bytes, m': Bytes, b: Block) {
    && HEAP_START <= b.addr && 16 <= b.size && b.End() <= HEAP_END
    && forall k {:trigger Unfold(OfPayloadKept, k)} :: Unfold(OfPayloadKept, k) ==>
         Range(m', b.addr + 16, b.End()) == Range(m, b.addr + 16, b.End())
  }

  /** So do the payloads of all the blocks. */
  ghost predicate PayloadsKept(m: Bytes, m': Bytes, bs: set<Block>) {
    forall b :: b in bs ==> PayloadKept(m, m', b)
  }

  lemma HeaderUnique(m: Bytes, a: nat, h: Header, g: Header)
    requires HeaderIs(m, a, h) && HeaderIs(m, a, g)
    ensures h == g
  {
    assert Unfold(OfHeaderIs, 0);
  }

  lemma WrittenAt(m: Bytes, a: nat, h: Header, m': Bytes)
    requires Written(m, a, h, m')
    ensures HeaderIs(m', a, h)
  {
    assert Unfold(OfWritten, 0);
    WordsRoundTrip(h.Words());
    WordsAtPatched(m, a - HEAP_START, WordsBytes(h.Words()), h.Words());
  }

  predicate Apart16(a: nat, c: nat) {
    a + 16 <= c || c + 16 <= a
  }

  lemma WrittenApart(m: Bytes, a: nat, h: Header, m': Bytes, c: nat, g: Header)
    requires Written(m, a, h, m') && HeaderIs(m, c, g) && Apart16(a, c)
    ensures HeaderIs(m', c, g)
  {
    assert Unfold(OfWritten, 0) && Unfold(OfHeaderIs, 0);
    WordsAtClear(m, a - HEAP_START, WordsBytes(h.Words()), c - HEAP_START, 4);
  }

  lemma CopiedApart(m: Bytes, src: nat, dst: nat, n: nat, m': Bytes, c: nat, g: Header)
    requires CopiedTo(m, src, dst, n, m') && HeaderIs(m, c, g) && (c + 16 <= dst || dst + n <= c)
    ensures HeaderIs(m', c, g)
  {
    assert Unfold(OfCopied, 0) && Unfold(OfHeaderIs, 0);
    WordsAtClear(m, dst - HEAP_START, Range(m, src, src + n), c - HEAP_START, 4);
  }

  // ---------------------------------------------------------------- payloads

  lemma PayloadsSame(m: Bytes, bs: seq<Block>)
    requires HeapInv(bs)
    ensures PayloadsKept(m, m, LiveSet(bs))
  {
    forall b | b in LiveSet(bs) ensures PayloadKept(m, m, b) {
      var j :| 0 <= j < |bs| && bs[j] == b;
      TilesAt(bs, j, HEAP_START, HEAP_END);
    }
  }

  lemma PayloadTwice(m: Bytes, m': Bytes, m'': Bytes, b: Block)
    requires PayloadKept(m, m', b) && PayloadKept(m', m'', b)
    ensures PayloadKept(m, m'', b)
  {
    assert Unfold(OfPayloadKept, 0);
  }

  lemma PayloadsTwice(m: Bytes, m': Bytes, m'': Bytes, bs: set<Block>, some: set<Block>)
    requires PayloadsKept(m, m', bs) && PayloadsKept(m', m'', some) && some <= bs
    ensures PayloadsKept(m, m'', some)
  {
    forall b | b in some ensures PayloadKept(m, m'', b) {
      PayloadTwice(m, m', m'', b);
    }
  }

  lemma PayloadsReflect(m: Bytes, m': Bytes, bs: set<Block>)
    requires PayloadsKept(m, m', bs)
    ensures PayloadsKept(m', m', bs)
  {
    forall b | b in bs ensures PayloadKept(m', m', b) {
      assert PayloadKept(m, m', b);
    }
  }

  lemma WrittenPayload(m: Bytes, a: nat, h: Header, m': Bytes, b: Block)
    requires Written(m, a, h, m') && HEAP_START <= b.addr && 16 <= b.size && b.End() <= HEAP_END
    requires b.End() <= a || a + 16 <= b.addr + 16
    ensures PayloadKept(m, m', b)
  {
    assert Unfold(OfWritten, 0);
    PatchOutside(m, a - HEAP_START, WordsBytes(h.Words()), b.addr + 16 - HEAP_START, b.End() - HEAP_START);
  }

  /** A header written at the start of a block, or anywhere inside a free one, touches no payload of an
      allocated block. */
  lemma WrittenPayloads(m: Bytes, a: nat, h: Header, m': Bytes, bs: seq<Block>, k: nat)
    requires Written(m, a, h, m') && Tiles(bs, HEAP_START, HEAP_END) && k < |bs|
    requires a == bs[k].addr || (bs[k].free && bs[k].addr <= a && a + 16 <= bs[k].End())
    ensures PayloadsKept(m, m', LiveSet(bs))
  {
    TilesAt(bs, k, HEAP_START, HEAP_END);
    forall b | b in LiveSet(bs) ensures PayloadKept(m, m', b) {
      var j :| 0 <= j < |bs| && bs[j] == b;
      TilesAt(bs, j, HEAP_START, HEAP_END);
      if j < k {
        Ordered(bs, j, k, HEAP_START, HEAP_END);
      } else if k < j {
        Ordered(bs, k, j, HEAP_START, HEAP_END);
      }
      WrittenPayload(m, a, h, m', b);
    }
  }

  lemma CopiedPayload(m: Bytes, src: nat, dst: nat, n: nat, m': Bytes, b: Block)
    requires CopiedTo(m, src, dst, n, m') && HEAP_START <= b.addr && 16 <= b.size && b.End() <= HEAP_END
    requires b.End() <= dst || dst + n <= b.addr + 16
    ensures PayloadKept(m, m', b)
  {
    assert Unfold(OfCopied, 0);
    PatchOutside(m, dst - HEAP_START, Range(m, src, src + n), b.addr + 16 - HEAP_START, b.End() - HEAP_START);
  }

  /** `n` bytes from `src` of one memory stand at `dst` of another. */
  ghost predicate Moved(m: Bytes, m': Bytes, src: nat, dst: nat, n: int) {
    && Spans(src, n) && Spans(dst, n)
    && forall k {:trigger Unfold(OfMoved, k)} :: Unfold(OfMoved, k) ==> Range(m', dst, dst + n) == Range(m, src, src + n)
  }

  lemma CopiedMoves(m: Bytes, src: nat, dst: nat, n: nat, m': Bytes)
    requires CopiedTo(m, src, dst, n, m')
    ensures Moved(m, m', src, dst, n)
  {
    assert Unfold(OfCopied, 0);
    PatchInside(m, dst - HEAP_START, Range(m, src, src + n), 0, n);
  }

  /** A kept payload keeps its first bytes. */
  lemma KeptPrefix(m: Bytes, m': Bytes, b: Block, p: nat, n: nat)
    requires PayloadKept(m, m', b) && 16 + n <= b.size && p == b.addr + 16
    ensures Moved(m, m', p, p, n)
  {
    assert Unfold(OfPayloadKept, 0);
    assert Range(m', p, p + n) == Range(m', p, b.End())[..n];
    assert Range(m, p, p + n) == Range(m, p, b.End())[..n];
  }

  lemma MovedPayload(m0: Bytes, m1: Bytes, m2: Bytes, m3: Bytes, o: Block, b: Block, src: nat, dst: nat, n: nat)
    requires PayloadKept(m0, m1, o) && src == o.addr + 16 && o.size == n + 16 && CopiedTo(m1, src, dst, n, m2)
    requires PayloadKept(m2, m3, b) && dst == b.addr + 16 && 16 + n <= b.size
    ensures Moved(m0, m3, src, dst, n)
  {
    assert Unfold(OfMoved, 0);
    KeptPrefix(m0, m1, o, src, n);
    CopiedMoves(m1, src, dst, n, m2);
    KeptPrefix(m2, m3, b, dst, n);
  }

  /** The payload of block `b` is `x`. Folded. */
  ghost predicate PayloadIs(m: Bytes, b: Block, x: seq<byte>) {
    && HEAP_START <= b.addr && 16 <= b.size && b.End() <= HEAP_END && |x| == b.size - 16
    && forall k {:trigger Unfold(OfPayloadIs, k)} :: Unfold(OfPayloadIs, k) ==> Range(m, b.addr + 16, b.End()) == x
  }

  lemma PayloadStays(m: Bytes, m': Bytes, b: Block, x: seq<byte>)
    requires PayloadIs(m, b, x) && PayloadKept(m, m', b)
    ensures PayloadIs(m', b, x)
  {
    assert Unfold(OfPayloadIs, 0) && Unfold(OfPayloadKept, 0);
  }

  // ---------------------------------------------------------------- a holder's own writes

  /** `m'` is `m` with `data` written at address `at`. Folded. */
  ghost predicate Poked(m: Bytes, at: nat, data: seq<byte>, m': Bytes) {
    && Spans(at, |data|)
    && forall k {:trigger Unfold(OfCopied, k)} :: Unfold(OfCopied, k) ==> m' == Patch(m, at - HEAP_START, data)
  }

  lemma PokedApart(m: Bytes, at: nat, data: seq<byte>, m': Bytes, c: nat, g: Header)
    requires Poked(m, at, data, m') && HeaderIs(m, c, g) && (c + 16 <= at || at + |data| <= c)
    ensures HeaderIs(m', c, g)
  {
    assert Unfold(OfCopied, 0) && Unfold(OfHeaderIs, 0);
    WordsAtClear(m, at - HEAP_START, data, c - HEAP_START, 4);
  }

  lemma PokedPayload(m: Bytes, at: nat, data: seq<byte>, m': Bytes, b: Block)
    requires Poked(m, at, data, m') && HEAP_START <= b.addr && 16 <= b.size && b.End() <= HEAP_END
    requires b.End() <= at || at + |data| <= b.addr + 16
    ensures PayloadKept(m, m', b)
  {
    assert Unfold(OfCopied, 0);
    PatchOutside(m, at - HEAP_START, data, b.addr + 16 - HEAP_START, b.End() - HEAP_START);
  }

  /** Writing inside a payload writes inside what it holds. */
  lemma PokedInside(m: Bytes, off: nat, data: seq<byte>, m': Bytes, b: Block, x: seq<byte>)
    requires PayloadIs(m, b, x) && off + |data| <= |x| && Poked(m, b.addr + 16 + off, data, m')
    ensures PayloadIs(m', b, Patch(x, off, data))
  {
    assert Unfold(OfCopied, 0) && Unfold(OfPayloadIs, 0);
    assert Range(m', b.addr + 16, b.End()) == Patch(Range(m, b.addr + 16, b.End()), off, data);
  }

  // ---------------------------------------------------------------- the chain

  /** The address of block `i`, or the null that ends the chain. */
  function AddrAt(bs: seq<Block>, i: nat): nat {
    if i < |bs| then bs[i].addr else 0
  }

  /** The header of block `i` of the list. */
  function HeaderOf(bs: seq<Block>, i: nat): Header
    requires i < |bs|
  {
    Header(bs[i].size, if bs[i].free then 1 else 0, HEAP_MAGIC, AddrAt(bs, i + 1))
  }

  ghost predicate LinkAt(m: Bytes, bs: seq<Block>, i: nat)
    requires i < |bs|
  {
    HeaderIs(m, bs[i].addr, HeaderOf(bs, i))
  }

  /** The headers in memory chain up to the list. */
  ghost predicate Linked(m: Bytes, bs: seq<Block>) {
    forall i {:trigger LinkAt(m, bs, i)} :: 0 <= i < |bs| ==> LinkAt(m, bs, i)
  }

  lemma LinkedAt(m: Bytes, bs: seq<Block>, i: nat)
    requires Linked(m, bs) && i < |bs|
    ensures LinkAt(m, bs, i)
  {
  }

  ghost predicate Sound(m: Bytes, bs: seq<Block>) {
    HeapInv(bs) && Linked(m, bs)
  }

  /** What stands in memory before the payload of each block: its size, whether it is free, the magic number
      and the address of the next block or 0. */
  lemma HeaderWords(m: Bytes, bs: seq<Block>, i: nat)
    requires Sound(m, bs) && i < |bs|
    ensures var o := bs[i].addr - 0x20_0000;
            && 0 <= o && o + 16 <= |m|
            && WordAt(m, o) == bs[i].size && WordAt(m, o + 4) == (if bs[i].free then 1 else 0)
            && WordAt(m, o + 8) == 0xDEAD_BEEF && WordAt(m, o + 12) == if i + 1 < |bs| then bs[i + 1].addr else 0
  {
    LinkedAt(m, bs, i);
    assert Unfold(OfHeaderIs, 0);
    var o := bs[i].addr - HEAP_START;
    var w := WordsAt(m, o, 4);
    assert w[0] == WordAt(m, o) && w[1] == WordAt(m, o + 4) && w[2] == WordAt(m, o + 8) && w[3] == WordAt(m, o + 12);
  }

  /** A header written in block `k` leaves those of all other blocks. */
  lemma WrittenLinks(m: Bytes, a: nat, h: Header, m': Bytes, bs: seq<Block>, k: nat, j: nat)
    requires Written(m, a, h, m') && Tiles(bs, HEAP_START, HEAP_END) && k < |bs| && j < |bs| && j != k && LinkAt(m, bs, j)
    requires bs[k].addr <= a && a + 16 <= bs[k].End()
    ensures LinkAt(m', bs, j)
  {
    AtDistinct(bs, k, j);
    TilesAt(bs, j, HEAP_START, HEAP_END);
    WrittenApart(m, a, h, m', bs[j].addr, HeaderOf(bs, j));
  }
}
