/** The physical page allocator: a bitmap of 4096 pages kept in 128 words. */
module Pmm {
  import opened Words

  const NONE: nat := 0xFFFF_FFFF

  // ---------------------------------------------------------------- bits of words

  lemma Width32()
    ensures Power2(32) == 0x1_0000_0000
  {
    assert Power2(4) == 0x10 && Power2(8) == 0x100 && Power2(12) == 0x1000 && Power2(16) == 0x1_0000
           && Power2(20) == 0x10_0000 && Power2(24) == 0x100_0000 && Power2(28) == 0x1000_0000;
  }

  lemma WordBit(w: u32, k: nat)
    requires k < 32
    ensures WithBit(w, k) < 0x1_0000_0000 && WithoutBit(w, k) < 0x1_0000_0000
  {
    Width32();
    BitKeepsWidth(w, k, 32);
  }

  predicate PageIsUsed(ws: seq<u32>, p: nat)
    requires |ws| == 128 && p < 4096
  {
    BitOf(ws[p / 32], p % 32)
  }

  /** The pages whose bit is set. */
  function UsedSet(ws: seq<u32>): (r: set<nat>)
    requires |ws| == 128
    ensures forall p :: p in r <==> p < 4096 && PageIsUsed(ws, p)
  {
    set p: nat | p < 4096 && PageIsUsed(ws, p)
  }

  lemma UsedAfterSet(ws: seq<u32>, p: nat, w: u32)
    requires |ws| == 128 && p < 4096 && w == WithBit(ws[p / 32], p % 32)
    ensures UsedSet(ws[p / 32 := w]) == UsedSet(ws) + {p}
  {
    forall q: nat | q < 4096 ensures PageIsUsed(ws[p / 32 := w], q) == (q == p || PageIsUsed(ws, q)) {
      BitOfWithBit(ws[p / 32], p % 32, q % 32);
    }
  }

  lemma UsedAfterClear(ws: seq<u32>, p: nat, w: u32)
    requires |ws| == 128 && p < 4096 && w == WithoutBit(ws[p / 32], p % 32)
    ensures UsedSet(ws[p / 32 := w]) == UsedSet(ws) - {p}
  {
    forall q: nat | q < 4096 ensures PageIsUsed(ws[p / 32 := w], q) == (q != p && PageIsUsed(ws, q)) {
      BitOfWithoutBit(ws[p / 32], p % 32, q % 32);
    }
  }

  /** Page `p` is worth 2^(p % 32) in word `p / 32`. */
  lemma PageWorth(ws: seq<u32>, p: nat)
    requires |ws| == 128 && p < 4096
    ensures WithBit(ws[p / 32], p % 32) == ws[p / 32] + if p in UsedSet(ws) then 0 else Power2(p % 32)
    ensures WithoutBit(ws[p / 32], p % 32) == ws[p / 32] - if p in UsedSet(ws) then Power2(p % 32) else 0
  {
    BitWorth(ws[p / 32], p % 32);
  }

  lemma {:induction false} SameBits(x: nat, y: nat, width: nat)
    requires x < Power2(width) && y < Power2(width)
    requires forall k :: 0 <= k < width ==> BitOf(x, k) == BitOf(y, k)
    ensures x == y
  {
    if width > 0 {
      assert BitOf(x, 0) == BitOf(y, 0);
      forall k | 0 <= k < width - 1 ensures BitOf(x / 2, k) == BitOf(y / 2, k) {
        assert BitOf(x, k + 1) == BitOf(y, k + 1);
      }
      SameBits(x / 2, y / 2, width - 1);
    }
  }

  /** The used pages determine the bitmap, word by word. */
  lemma UsedDetermines(a: seq<u32>, b: seq<u32>)
    requires |a| == |b| == 128 && UsedSet(a) == UsedSet(b)
    ensures a == b
  {
    forall i | 0 <= i < 128 ensures a[i] == b[i] {
      forall k | 0 <= k < 32 ensures BitOf(a[i], k) == BitOf(b[i], k) {
        var p := 32 * i + k;
        assert p in UsedSet(a) <==> p in UsedSet(b);
      }
      Width32();
      SameBits(a[i], b[i], 32);
    }
  }

  // ---------------------------------------------------------------- what the searches look for

  predicate InRun(p: nat, s: nat, n: nat) {
    s <= p < s + n
  }

  /** Pages `s`, ..., `s + n - 1`. */
  function PageRun(s: nat, n: nat): (r: set<nat>)
    ensures forall p :: p in r <==> s <= p < s + n
  {
    set p: nat | s <= p < s + n && InRun(p, s, n)
  }

  lemma RunSize(n: nat)
    ensures |PageRun(0, n)| == n
  {
    AtMost(PageRun(0, n), n);
    AtLeast(PageRun(0, n), n);
  }

  lemma MarkStep(before: set<nat>, s: nat, n: nat)
    ensures before + PageRun(s, n + 1) == before + PageRun(s, n) + {s + n}
    ensures s + n !in before ==> s + n !in before + PageRun(s, n)
  {
  }

  ghost predicate FreeRun(used: set<nat>, s: nat, n: nat) {
    s + n <= 4096 && forall p :: s <= p < s + n ==> p !in used
  }

  lemma FreeInRun(used: set<nat>, s: nat, n: nat, p: nat)
    requires FreeRun(used, s, n) && s <= p < s + n
    ensures p !in used && p < 4096
  {
  }

  /** What the naive search gives: the least start of a run of free pages, or `NONE`. */
  ghost predicate LeastRun(used: set<nat>, n: nat, s: nat) {
    && (forall t: nat :: FreeRun(used, t, n) ==> s <= t)
    && (s == NONE || FreeRun(used, s, n))
  }

  lemma LeastPage(used: set<nat>, i: nat)
    requires i <= 4096 && (i < 4096 ==> i !in used) && forall p :: 0 <= p < i ==> p in used
    ensures LeastRun(used, 1, if i < 4096 then i else NONE)
  {
    forall t: nat | FreeRun(used, t, 1) ensures i <= t < 4096 {
      assert t !in used;
    }
  }

  predicate Freeable(addr: nat) {
    addr < 0x100_0000 && addr % 4096 == 0 && addr >= 0x20_0000
  }

  function AddrAt(addr: u32, i: nat): u32 {
    (addr + i * 4096) % 0x1_0000_0000
  }

  /** The pages that freeing `n` pages from `addr` clears; addresses wrap at 32 bits. */
  function Freed(addr: u32, n: nat): (r: set<nat>) {
    if n == 0 then {}
    else
      var a := AddrAt(addr, n - 1);
      Freed(addr, n - 1) + if Freeable(a) then {a / 4096} else {}
  }

  /** Those are the pages from 512 to 4095 whose address the loop comes to. */
  lemma {:induction false} FreedIs(addr: u32, n: nat, p: nat)
    ensures p in Freed(addr, n) <==> 512 <= p < 4096 && exists i: nat :: i < n && p * 4096 == AddrAt(addr, i)
    ensures forall i: nat :: AddrAt(addr, i) == (addr + i * 4096) % 0x1_0000_0000
  {
    if n > 0 {
      FreedIs(addr, n - 1, p);
      assert 512 <= p < 4096 && p * 4096 == AddrAt(addr, n - 1) <==> Freeable(AddrAt(addr, n - 1)) && p == AddrAt(addr, n - 1) / 4096;
    }
  }

  lemma {:induction false} FreedRun(s: nat, n: nat)
    requires 512 <= s && s + n <= 4096
    ensures Freed(s * 4096, n) == PageRun(s, n)
  {
    if n > 0 {
      FreedRun(s, n - 1);
      assert AddrAt(s * 4096, n - 1) == (s + n - 1) * 4096;
    }
  }

  /** Freeing the run that was just allocated gives back the bitmap as it was. */
  lemma FreePagesUndoes(used: set<nat>, addr: u32, n: nat)
    requires addr % 4096 == 0 && 512 <= addr / 4096 && FreeRun(used, addr / 4096, n)
    ensures used + PageRun(addr / 4096, n) - Freed(addr, n) == used
  {
    var s := addr / 4096;
    assert s * 4096 == addr;
    FreedRun(s, n);
    forall p | p in used ensures p !in PageRun(s, n) {
    }
  }

  class PageAllocator {
    const words: array<u32>
    var usedPages: nat
    /** The pages in use. */
    ghost var used: set<nat>

    ghost function Used(): set<nat>
      reads this
    {
      used
    }

    /** They are the pages whose bits are set. Folded. */
    ghost predicate Tied()
      reads this, words
    {
      words.Length == 128 && forall k {:trigger Unfold(OfUsed, k)} :: Unfold(OfUsed, k) ==> used == UsedSet(words[..])
    }

    lemma TiedIs()
      requires Tied()
      ensures used == UsedSet(words[..])
    {
      assert Unfold(OfUsed, 0);
    }

    /** `used_pages` is the number of set bits, and the kernel's first 2 MB stay set. */
    ghost predicate Valid()
      reads this, words
    {
      Tied() && usedPages == |Used()| && PageRun(0, 512) <= Used()
    }

    /** `pmm_init`. */
    constructor ()
      ensures Valid() && fresh(words) && Used() == PageRun(0, 512) && usedPages == 512
    {
      words := new u32[128](_ => 0);
      usedPages := 0;
      used := {};
      new;
      forall p: nat | p < 4096 ensures !PageIsUsed(words[..], p) {
        ZeroHasNoBits(p % 32);
      }
      assert UsedSet(words[..]) == {};
      MarkRun(0, 512);
      RunSize(512);
    }

    /** `bitmap_set`. */
    method SetPage(p: nat)
      requires Tied() && p < 4096
      modifies `used, words
      ensures Tied() && Used() == old(Used()) + {p}
      ensures p !in old(Used()) ==> words[..] == old(words[..])[p / 32 := old(words[p / 32]) + Power2(p % 32)]
    {
      TiedIs();
      PageWorth(words[..], p);
      WordBit(words[p / 32], p % 32);
      var w := WithBit(words[p / 32], p % 32);
      UsedAfterSet(words[..], p, w);
      words[p / 32] := w;
      used := used + {p};
      assert words[..] == old(words[..])[p / 32 := w];
    }

    /** `bitmap_clear`. */
    method ClearPage(p: nat)
      requires Tied() && p < 4096
      modifies `used, words
      ensures Tied() && Used() == old(Used()) - {p}
    {
      TiedIs();
      WordBit(words[p / 32], p % 32);
      var w := WithoutBit(words[p / 32], p % 32);
      UsedAfterClear(words[..], p, w);
      words[p / 32] := w;
      used := used - {p};
      assert words[..] == old(words[..])[p / 32 := w];
    }

    /** `bitmap_test`. */
    method TestPage(p: nat) returns (b: bool)
      requires Tied() && p < 4096
      ensures b == (p in Used())
    {
      TiedIs();
      b := BitOf(words[p / 32], p % 32);
      assert words[..][p / 32] == words[p / 32];
    }

    /** `find_free_page`. */
    method FindFreePage() returns (r: nat)
      requires Tied()
      ensures LeastRun(Used(), 1, r)
    {
      var i := 0;
      while i < 4096
        invariant i <= 4096 && forall p :: 0 <= p < i ==> p in Used()
      {
        var taken := TestPage(i);
        if !taken {
          LeastPage(Used(), i);
          return i;
        }
        i := i + 1;
      }
      LeastPage(Used(), i);
      return NONE;
    }

    /** `find_free_pages`: after a used page at `i + j` the search goes on right behind it. */
    method FindFreePages(count: u32) returns (r: nat)
      requires Tied() && count <= 4096
      ensures count == 0 ==> r == NONE
      ensures count > 0 ==> LeastRun(Used(), count, r)
    {
      if count == 0 {
        return NONE;
      }
      var i := 0;
      while i <= 4096 - count
        invariant forall t: nat :: FreeRun(Used(), t, count) ==> i <= t
        decreases 4097 - i
      {
        var found := true;
        var start := i;
        var j := 0;
        while j < count
          invariant j <= count && found && i == start && start + count <= 4096
          invariant forall p :: start <= p < start + j ==> p !in Used()
        {
          var taken := TestPage(i + j);
          if taken {
            found := false;
            i := i + j;
            break;
          }
          j := j + 1;
        }
        if found {
          return i;
        }
        assert i in Used();
        i := i + 1;
      }
      return NONE;
    }

    /** `pmm_alloc_page`: the lowest free page, or address 0 when there is none. */
    method AllocPage() returns (addr: u32)
      requires Valid()
      modifies this, words
      ensures Valid()
      ensures addr == 0 <==> PageRun(0, 4096) <= old(Used())
      ensures addr == 0 ==> Used() == old(Used())
      ensures addr != 0 ==> addr % 4096 == 0 && 512 <= addr / 4096 && LeastRun(old(Used()), 1, addr / 4096)
      ensures addr != 0 ==> FreeRun(old(Used()), addr / 4096, 1) && Used() == old(Used()) + {addr / 4096}
    {
      var page := FindFreePage();
      if page == NONE {
        forall p | 0 <= p < 4096 ensures p in Used() {
          if p !in Used() {
            assert FreeRun(Used(), p, 1);
          }
        }
        return 0;
      }
      assert page !in Used();
      SetPage(page);
      usedPages := usedPages + 1;
      return page * 4096;
    }

    /** `pmm_free_page`: addresses of the kernel, beyond the memory or inside a page are ignored. */
    method FreePage(addr: u32)
      requires Valid()
      modifies this, words
      ensures Valid()
      ensures Used() == old(Used()) - (if Freeable(addr) then {addr / 4096} else {})
      ensures forall p :: p in Used() <==> p in old(Used()) && !(512 <= p < 4096 && p * 4096 == addr)
    {
      if addr >= 0x100_0000 || addr % 4096 != 0 {
        return;
      }
      if addr < 0x20_0000 {
        return;
      }
      var page := addr / 4096;
      var taken := TestPage(page);
      if taken {
        ClearPage(page);
        usedPages := usedPages - 1;
      }
    }

    /** `pmm_alloc_pages`: the lowest run of free pages, or address 0 when there is none. */
    method AllocPages(count: u32) returns (addr: u32)
      requires Valid() && count <= 4096
      modifies this, words
      ensures Valid()
      ensures count == 0 || (forall t: nat :: !FreeRun(old(Used()), t, count)) ==> addr == 0
      ensures addr == 0 && count != 0 ==> forall t: nat :: !FreeRun(old(Used()), t, count)
      ensures addr == 0 ==> Used() == old(Used())
      ensures addr != 0 ==> addr % 4096 == 0 && 512 <= addr / 4096 && LeastRun(old(Used()), count, addr / 4096)
      ensures addr != 0 ==> FreeRun(old(Used()), addr / 4096, count)
      ensures addr != 0 ==> Used() == old(Used()) + PageRun(addr / 4096, count)
    {
      if count == 0 {
        return 0;
      }
      var page := FindFreePages(count);
      if page == NONE {
        return 0;
      }
      assert page !in Used() && FreeRun(Used(), page, count);
      MarkRun(page, count);
      return page * 4096;
    }

    /** Every page of a free run is marked used, and counted. */
    method MarkRun(page: nat, count: nat)
      requires Tied() && usedPages == |Used()| && FreeRun(Used(), page, count)
      modifies this, words
      ensures Tied() && Used() == old(Used()) + PageRun(page, count) && usedPages == |Used()|
    {
      var i := 0;
      while i < count
        invariant i <= count && Tied() && Used() == old(Used()) + PageRun(page, i) && usedPages == |Used()|
      {
        MarkStep(old(Used()), page, i);
        FreeInRun(old(Used()), page, count, page + i);
        SetPage(page + i);
        usedPages := usedPages + 1;
        i := i + 1;
      }
    }

    /** `pmm_free_pages`. */
    method FreePages(addr: u32, count: u32)
      requires Valid()
      modifies this, words
      ensures Valid()
      ensures Used() == old(Used()) - Freed(addr, count)
    {
      var i := 0;
      while i < count
        invariant i <= count && Valid() && Used() == old(Used()) - Freed(addr, i)
      {
        FreePage(AddrAt(addr, i));
        i := i + 1;
      }
    }
  }

  /** The allocator reserves the 2 MB below the heap and not the heap: the page it gives lies inside the
      heap's 4 MB if and only if one of the 1024 pages there is not in use. On a new allocator it is the heap's
      first page. */
  method AllocOverHeap(m: PageAllocator) returns (addr: u32)
    requires m.Valid()
    modifies m, m.words
    ensures m.Valid() && (addr == 0 <==> PageRun(0, 4096) <= old(m.Used()))
    ensures 0x20_0000 <= addr < 0x60_0000 <==> !(PageRun(512, 1024) <= old(m.Used()))
    ensures old(m.Used()) == PageRun(0, 512) ==> addr == 0x20_0000
  {
    addr := m.AllocPage();
    forall p | 512 <= p < 1536 && p !in old(m.Used()) ensures 0 < addr / 4096 <= p {
      assert FreeRun(old(m.Used()), p, 1) && p in PageRun(0, 4096);
    }
    assert addr != 0 ==> addr / 4096 !in old(m.Used());
    if old(m.Used()) == PageRun(0, 512) {
      assert 512 !in old(m.Used());
    }
  }

  /** Allocating a run of pages and freeing it restores every word of the bitmap and the counter. */
  method AllocThenFree(m: PageAllocator, count: u32) returns (addr: u32)
    requires m.Valid() && count <= 4096
    modifies m, m.words
    ensures m.Valid() && m.usedPages == old(m.usedPages) && m.words[..] == old(m.words[..])
  {
    m.TiedIs();
    addr := m.AllocPages(count);
    if addr != 0 {
      FreePagesUndoes(old(m.Used()), addr, count);
      m.FreePages(addr, count);
    }
    m.TiedIs();
    UsedDetermines(m.words[..], old(m.words[..]));
  }
}
