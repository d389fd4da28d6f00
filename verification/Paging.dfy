/** Paging: directories and tables in physical frames, changed in place, over the page allocator. */
module Paging {
  import opened Words
  import opened Pmm
  import opened PageTables
  import opened PageOwnership

  ghost predicate Full(used: set<nat>) {
    PageRun(0, 4096) <= used
  }

  /** Mapping fails only where a table is missing and no frame is left for one. */
  ghost predicate CanMap(m: Memory, d: nat, q: nat, used: set<nat>)
    requires d < 4096 && q < 0x10_0000
  {
    TableOf(m, d, q / 1024) >= 0 || !Full(used)
  }

  /** What `paging_get_physical_address` gives for directory `d`; 0 where nothing is mapped. */
  function Translate(m: Memory, d: nat, v: u32): (r: u32)
    requires d < 4096
  {
    var e := Pte(m, d, v / 4096);
    if Present(e) then e - e % 4096 + v % 4096 else 0
  }

  /** The pages `paging_map_user_code` goes through. */
  function PagesOf(size: u32): nat {
    Add32(size, 4095) / 4096
  }

  /** They cover the size exactly when its rounding does not wrap. */
  lemma PagesOfCovers(size: u32)
    ensures size <= PagesOf(size) * 4096 <==> size <= 0xFFFF_F000
    ensures size <= 0xFFFF_F000 ==> PagesOf(size) == (size + 4095) / 4096 && PagesOf(size) * 4096 < size + 4096
  {
  }

  /** Above that, no page is mapped at all. */
  lemma PagesOfWraps(size: u32)
    requires size > 0xFFFF_F000
    ensures PagesOf(size) == 0
  {
  }

  // ---------------------------------------------------------------- runs of pages

  /** How far page `p` lies ahead of page `q`, around the 4 GB. */
  function Ahead(p: nat, q: nat): (r: nat) {
    (p - q) % 0x10_0000
  }

  lemma AheadIs(v: u32, i: nat, p: nat)
    requires i < 0x10_0000 && p < 0x10_0000
    ensures p == AddrAt(v, i) / 4096 <==> Ahead(p, v / 4096) == i
  {
    var q := v / 4096;
    assert AddrAt(v, i) / 4096 == (q + i) % 0x10_0000;
  }

  /** `n` pages from address `v` on go to the frames from `phys` on. A page stays as it was only where
      its table is missing and no frame was left for one; no other page's walk changes. */
  ghost predicate MappedRun(m: Memory, m': Memory, used': set<nat>, dirs: set<nat>, d: nat, v: u32, phys: u32, n: nat)
    requires (forall e :: e in dirs ==> e < 4096) && d in dirs
  {
    forall e, p :: e in dirs && 0 <= p < 0x10_0000 ==> RunAt(m, m', used', d, v, phys, n, e, p)
  }

  ghost predicate RunAt(m: Memory, m': Memory, used': set<nat>, d: nat, v: u32, phys: u32, n: nat, e: nat, p: nat)
    requires d < 4096 && e < 4096 && p < 0x10_0000
  {
    var k := Ahead(p, v / 4096);
    if k < n && (e == d || p < 4096)
    then Pte(m', e, p) == MakeEntry(AddrAt(phys, k), PAGE_USER_MODE)
         || (Full(used') && TableOf(m', d, p / 1024) < 0 && Pte(m', e, p) == Pte(m, e, p))
    else Pte(m', e, p) == Pte(m, e, p)
  }

  /** One page mapped, unless its table is missing and no frame is left for one. */
  ghost predicate OnePage(m: Memory, used: set<nat>, m': Memory, used': set<nat>, dirs: set<nat>, d: nat, v: u32, phys: u32)
    requires (forall e :: e in dirs ==> e < 4096) && d in dirs
  {
    if CanMap(m, d, v / 4096, used) then Mapped(m, used, m', used', dirs, d, v / 4096, MakeEntry(phys, PAGE_USER_MODE))
    else m' == m && used' == used
  }

  lemma KernelTables(m: Memory, dirs: set<nat>, kdir: nat, used: set<nat>, d: nat)
    requires Tables(m, dirs, kdir, used) && d in dirs
    ensures forall i :: 0 <= i < 4 ==> TableOf(m, d, i) >= 0
    ensures forall i :: 0 <= i < 1024 ==> TableOf(m, d, i) < 4096
  {
    TablesAre(m, dirs, kdir, used);
  }

  lemma RunStart(m: Memory, used: set<nat>, dirs: set<nat>, d: nat, v: u32, phys: u32)
    requires (forall e :: e in dirs ==> e < 4096) && d in dirs
    ensures MappedRun(m, m, used, dirs, d, v, phys, 0)
  {
  }

  lemma RunStep(m0: Memory, m: Memory, used: set<nat>, m': Memory, used': set<nat>, dirs: set<nat>, d: nat,
                v: u32, phys: u32, n: nat)
    requires (forall e :: e in dirs ==> e < 4096) && d in dirs && n < 0x10_0000
    requires MappedRun(m0, m, used, dirs, d, v, phys, n)
    requires CanMap(m, d, AddrAt(v, n) / 4096, used) ==>
               Mapped(m, used, m', used', dirs, d, AddrAt(v, n) / 4096, MakeEntry(AddrAt(phys, n), PAGE_USER_MODE))
    requires !CanMap(m, d, AddrAt(v, n) / 4096, used) ==> m' == m && used' == used
    requires forall i :: 0 <= i < 4 ==> TableOf(m, d, i) >= 0
    ensures MappedRun(m0, m', used', dirs, d, v, phys, n + 1)
  {
    var n' := n + 1;
    forall e, p | e in dirs && 0 <= p < 0x10_0000 ensures RunAt(m0, m', used', d, v, phys, n', e, p) {
      RunStepAt(m0, m, used, m', used', dirs, d, v, phys, n, e, p);
    }
  }

  lemma RunStepAt(m0: Memory, m: Memory, used: set<nat>, m': Memory, used': set<nat>, dirs: set<nat>, d: nat,
                  v: u32, phys: u32, n: nat, e: nat, p: nat)
    requires (forall e :: e in dirs ==> e < 4096) && d in dirs && n < 0x10_0000 && e in dirs && p < 0x10_0000
    requires RunAt(m0, m, used, d, v, phys, n, e, p)
    requires CanMap(m, d, AddrAt(v, n) / 4096, used) ==>
               Mapped(m, used, m', used', dirs, d, AddrAt(v, n) / 4096, MakeEntry(AddrAt(phys, n), PAGE_USER_MODE))
    requires !CanMap(m, d, AddrAt(v, n) / 4096, used) ==> m' == m && used' == used
    requires p < 4096 ==> TableOf(m, d, p / 1024) >= 0
    ensures RunAt(m0, m', used', d, v, phys, n + 1, e, p)
  {
    var q := AddrAt(v, n) / 4096;
    AheadIs(v, n, p);
    if CanMap(m, d, q, used) {
      assert Pte(m', e, p) == if p == q && (e == d || q < 4096) then MakeEntry(AddrAt(phys, n), PAGE_USER_MODE) else Pte(m, e, p);
      assert Full(used) ==> TableOf(m, d, q / 1024) >= 0;
      assert TableOf(m', d, p / 1024) == if p / 1024 == q / 1024 then TableOf(m', d, q / 1024) else TableOf(m, d, p / 1024);
    }
  }

  // ---------------------------------------------------------------- translations

  /** After a page is mapped present, its addresses translate to the new frame, and no address of
      another page translates differently; at or above 16 MB, none of another directory does. */
  lemma MapTranslates(m: Memory, used: set<nat>, m': Memory, used': set<nat>, dirs: set<nat>, d: nat, v: u32, phys: u32, flags: u32)
    requires (forall e :: e in dirs ==> e < 4096) && d in dirs
    requires Mapped(m, used, m', used', dirs, d, v / 4096, MakeEntry(phys, flags)) && Present(flags)
    ensures Translate(m', d, v) == phys - phys % 4096 + v % 4096
    ensures forall e, w: u32 :: e in dirs && (w / 4096 != v / 4096 || (e != d && v >= 0x100_0000)) ==>
              Translate(m', e, w) == Translate(m, e, w)
  {
  }

  /** Where its table is there, the entry of a page of the run says present, writable and user; the directory
      entry above it does not, and so user mode does not reach the page. */
  lemma RunFlags(m: Memory, m': Memory, used': set<nat>, dirs: set<nat>, kdir: nat, d: nat, v: u32, phys: u32, n: nat)
    requires Tables(m', dirs, kdir, used') && d in dirs && MappedRun(m, m', used', dirs, d, v, phys, n)
    ensures forall p :: 0 <= p < 0x10_0000 && Ahead(p, v / 4096) < n && TableOf(m', d, p / 1024) >= 0 ==>
              Pte(m', d, p) % 4096 == 7 && !UserReaches(m', d, p)
  {
    forall p | 0 <= p < 0x10_0000 && Ahead(p, v / 4096) < n && TableOf(m', d, p / 1024) >= 0
      ensures Pte(m', d, p) % 4096 == 7 && !UserReaches(m', d, p)
    {
      assert RunAt(m, m', used', d, v, phys, n, d, p);
      NoUserPages(m', dirs, kdir, used', d, p);
    }
  }

  /** Where a table was there or could be allocated, every address of the run translates into the
      frames from `phys` on. */
  lemma RunTranslates(m: Memory, m': Memory, used': set<nat>, dirs: set<nat>, d: nat, v: u32, phys: u32, n: nat, w: u32)
    requires (forall e :: e in dirs ==> e < 4096) && d in dirs && TableOf(m', d, w / 4096 / 1024) >= 0
    requires MappedRun(m, m', used', dirs, d, v, phys, n) && Ahead(w / 4096, v / 4096) < n
    ensures var a := AddrAt(phys, Ahead(w / 4096, v / 4096));
            Translate(m', d, w) == a - a % 4096 + w % 4096
  {
    var p := w / 4096;
    assert RunAt(m, m', used', d, v, phys, n, d, p);
  }

  /** What a walk gives, entry by entry. */
  ghost predicate WalkGives(m: Memory, d: nat, v: u32, r: u32)
    requires d < 4096
  {
    var pde := m[d][v / 0x40_0000];
    if pde % 2 == 0 || pde / 4096 >= 4096 then r == 0
    else
      var pte := m[pde / 4096][v / 4096 % 1024];
      if pte % 2 == 0 then r == 0 else r == pte / 4096 * 4096 + v % 4096
  }

  lemma TranslateWalks(m: Memory, d: nat, v: u32)
    requires d < 4096
    ensures WalkGives(m, d, v, Translate(m, d, v))
  {
    assert v / 4096 / 1024 == v / 0x40_0000;
  }

  /** A new directory translates the kernel's 16 MB as the kernel does and nothing else, and no other
      directory translates differently. */
  lemma NewTranslates(m: Memory, dirs: set<nat>, kdir: nat, used: set<nat>, d: nat, e: nat, v: u32)
    requires Tables(m, dirs, kdir, used) && d < 4096 && d !in used
    ensures e in dirs ==> Translate(AddDirectory(m, kdir, d), e, v) == Translate(m, e, v)
    ensures Translate(AddDirectory(m, kdir, d), d, v) == if v < 0x100_0000 then Translate(m, kdir, v) else 0
  {
    AddDirectoryWalks(m, dirs, kdir, used, d, e, v / 4096);
  }

  // ---------------------------------------------------------------- what freeing has reached

  ghost predicate OwnsBelow(m: Memory, d: nat, f: nat, i: nat, q: nat)
    requires d < 4096 && i <= 1024 && q <= 0x10_0000
  {
    || (exists a :: 4 <= a < i && TableOf(m, d, a) == f)
    || (exists p :: 4096 <= p < q && Maps(m, d, p, f))
  }

  /** The frames freed when the tables below `i` and the pages below `q` are done. */
  ghost function OwnedBelow(m: Memory, d: nat, i: nat, q: nat): (r: set<nat>)
    requires d < 4096 && i <= 1024 && q <= 0x10_0000
    ensures forall f :: f in r <==> 512 <= f < 4096 && OwnsBelow(m, d, f, i, q)
  {
    set f: nat | 512 <= f < 4096 && OwnsBelow(m, d, f, i, q)
  }

  function Managed(f: nat): (r: set<nat>) {
    if 512 <= f < 4096 then {f} else {}
  }

  lemma BelowPage(m: Memory, d: nat, i: nat, q: nat)
    requires d < 4096 && i <= 1024 && 4096 <= q < 0x10_0000
    ensures OwnedBelow(m, d, i, q + 1)
         == OwnedBelow(m, d, i, q) + if Present(Pte(m, d, q)) then Managed(FrameOf(Pte(m, d, q))) else {}
  {
    forall f: nat ensures OwnsBelow(m, d, f, i, q + 1) <==> OwnsBelow(m, d, f, i, q) || Maps(m, d, q, f) {
      if p :| 4096 <= p < q + 1 && Maps(m, d, p, f) {
        assert p < q || Maps(m, d, q, f);
      }
    }
  }

  lemma BelowTable(m: Memory, d: nat, i: nat, q: nat)
    requires d < 4096 && 4 <= i < 1024 && q <= 0x10_0000
    ensures OwnedBelow(m, d, i + 1, q)
         == OwnedBelow(m, d, i, q) + if TableOf(m, d, i) >= 0 then Managed(TableOf(m, d, i)) else {}
  {
  }

  /** `done` is what has been freed so far. Folded. */
  ghost predicate Reached(m: Memory, d: nat, i: nat, q: nat, done: set<nat>)
    requires d < 4096 && i <= 1024 && q <= 0x10_0000
  {
    forall k {:trigger Unfold(OfReached, k)} :: Unfold(OfReached, k) ==> done == OwnedBelow(m, d, i, q)
  }

  lemma PteIn(m: Memory, d: nat, i: nat, j: nat)
    requires d < 4096 && i < 1024 && j < 1024 && 0 <= TableOf(m, d, i) < 4096
    ensures Pte(m, d, i * 1024 + j) == m[TableOf(m, d, i)][j]
  {
  }

  lemma FreeableFrame(f: nat)
    ensures Freeable(f * 4096) <==> 512 <= f < 4096
    ensures f * 4096 / 4096 == f
  {
  }

  lemma ReachedPage(m: Memory, d: nat, i: nat, q: nat, done: set<nat>) returns (next: set<nat>)
    requires d < 4096 && i <= 1024 && 4096 <= q < 0x10_0000 && Reached(m, d, i, q, done)
    ensures Reached(m, d, i, q + 1, next)
    ensures next == if Present(Pte(m, d, q)) then done + Managed(FrameOf(Pte(m, d, q))) else done
  {
    assert Unfold(OfReached, 0);
    BelowPage(m, d, i, q);
    next := OwnedBelow(m, d, i, q + 1);
  }

  lemma ReachedTable(m: Memory, d: nat, i: nat, q: nat, done: set<nat>) returns (next: set<nat>)
    requires d < 4096 && 4 <= i < 1024 && q <= 0x10_0000 && Reached(m, d, i, q, done)
    ensures Reached(m, d, i + 1, q, next)
    ensures next == if TableOf(m, d, i) >= 0 then done + Managed(TableOf(m, d, i)) else done
  {
    assert Unfold(OfReached, 0);
    BelowTable(m, d, i, q);
    next := OwnedBelow(m, d, i + 1, q);
  }

  /** Without a table there is nothing to free in its 1024 pages. */
  lemma ReachedAbsent(m: Memory, d: nat, i: nat, done: set<nat>)
    requires d < 4096 && 4 <= i < 1024 && TableOf(m, d, i) < 0 && Reached(m, d, i, i * 1024, done)
    ensures Reached(m, d, i + 1, (i + 1) * 1024, done)
  {
  }

  lemma ReachedNone(m: Memory, d: nat)
    requires d < 4096
    ensures Reached(m, d, 4, 4096, {})
  {
  }

  lemma ReachedAll(m: Memory, d: nat, done: set<nat>)
    requires 512 <= d < 4096 && Reached(m, d, 1024, 0x10_0000, done)
    ensures done + {d} == Owned(m, d)
  {
    assert Unfold(OfReached, 0);
    forall f: nat ensures Owns(m, d, f) <==> f == d || OwnsBelow(m, d, f, 1024, 0x10_0000) {
    }
  }

  // ---------------------------------------------------------------- a frame taken for a page

  /** A frame was taken and either mapped at page `q` of `d`, or lost to the base for want of a table. */
  ghost predicate Taken(m: Memory, used: set<nat>, base: set<nat>, m': Memory, used': set<nat>, base': set<nat>,
                        dirs: set<nat>, d: nat, q: nat, frame: u32)
    requires (forall e :: e in dirs ==> e < 4096) && d in dirs && q < 0x10_0000
  {
    var f := FrameOf(frame);
    && frame % 4096 == 0 && 512 <= f < 4096 && f !in used
    && if CanMap(m, d, q, used + {f})
       then base' == base && Mapped(m, used + {f}, m', used', dirs, d, q, MakeEntry(frame, PAGE_USER_MODE))
       else base' == base + {f} && m' == m && used' == used + {f}
  }

  lemma TakenAccounted(m: Memory, used: set<nat>, m': Memory, used': set<nat>, spaces: set<nat>, kdir: nat, base: set<nat>,
                       d: nat, v: u32, frame: u32) returns (base': set<nat>)
    requires Tables(m, spaces + {kdir}, kdir, used) && Accounted(m, spaces, kdir, base, used)
    requires d in spaces && d != kdir && 4096 <= v / 4096 && !Present(Pte(m, d, v / 4096))
    requires frame % 4096 == 0 && 512 <= FrameOf(frame) < 4096 && FrameOf(frame) !in used
    requires OnePage(m, used + {FrameOf(frame)}, m', used', spaces + {kdir}, d, v, frame)
    ensures Taken(m, used, base, m', used', base', spaces + {kdir}, d, v / 4096, frame)
    ensures Accounted(m', spaces, kdir, base', used')
  {
    var f := FrameOf(frame);
    if CanMap(m, d, v / 4096, used + {f}) {
      base' := base;
      MappedAccounted(m, used, m', used', spaces, kdir, base, d, v / 4096, f, MakeEntry(frame, PAGE_USER_MODE));
    } else {
      base' := base + {f};
      BaseGrows(m, spaces, kdir, base, used, f);
    }
  }

  /** With frame 4095 the only one left and the table missing, the frame is lost. */
  lemma LastFrameLost(m: Memory, used: set<nat>, base: set<nat>, m': Memory, used': set<nat>, base': set<nat>,
                      dirs: set<nat>, d: nat, q: nat, frame: u32)
    requires (forall e :: e in dirs ==> e < 4096) && d in dirs && q < 0x10_0000 && TableOf(m, d, q / 1024) < 0
    requires used == PageRun(0, 4096) - {4095} && Taken(m, used, base, m', used', base', dirs, d, q, frame)
    ensures frame == 4095 * 4096 && base' == base + {4095} && m' == m && Full(used') && !Present(Pte(m', d, q))
  {
    var f := FrameOf(frame);
    assert f in PageRun(0, 4096);
    assert Full(used + {f});
  }

  /** What was taken is owned by the directory, but for a frame that could not be mapped. */
  lemma TakenLost(m: Memory, used: set<nat>, base: set<nat>, m': Memory, used': set<nat>, base': set<nat>, dirs: set<nat>,
                  kdir: nat, d: nat, q: nat, frame: u32, start: set<nat>, lost: set<nat>) returns (lost': set<nat>)
    requires Tables(m, dirs, kdir, used) && d in dirs && 4096 <= q < 0x10_0000 && !Present(Pte(m, d, q))
    requires Taken(m, used, base, m', used', base', dirs, d, q, frame)
    requires used == start + Owned(m, d) + lost && Owned(m, d) !! (start + lost)
    ensures used' == start + Owned(m', d) + lost' && Owned(m', d) !! (start + lost')
    ensures Present(Pte(m', d, q)) ==> lost' == lost
  {
    var f := FrameOf(frame);
    if CanMap(m, d, q, used + {f}) {
      lost' := lost;
      TablesMore(m, dirs, kdir, used, used + {f});
      MappedOwned(m, used + {f}, m', used', dirs, kdir, d, q, MakeEntry(frame, PAGE_USER_MODE));
    } else {
      lost' := lost + {f};
    }
  }

  // ---------------------------------------------------------------- the identity map

  /** What `paging_init` has done when the pages below `q` are mapped. */
  ghost predicate IdentityBelow(m: Memory, kdir: nat, early: seq<nat>, q: nat)
    requires kdir < 4096 && |early| == 16 && forall j :: 0 <= j < 16 ==> early[j] < 4096
  {
    && (forall j :: 0 <= j < 1024 ==> m[kdir][j] == if j * 1024 < q && j < 4 then MakeEntry(early[j] * 4096, PAGE_KERNEL) else 0)
    && (forall j, k :: 0 <= j < 4 && 0 <= k < 1024 ==>
          m[early[j]][k] == if j * 1024 + k < q then MakeEntry((j * 1024 + k) * 4096, PAGE_KERNEL) else 0)
  }

  predicate Distinct(early: seq<nat>, kdir: nat) {
    && |early| == 16 && kdir < 512 && kdir !in early
    && (forall j :: 0 <= j < 16 ==> early[j] < 512)
    && (forall j, k :: 0 <= j < k < 16 ==> early[j] != early[k])
  }

  lemma IdentityTables(m: Memory, kdir: nat, early: seq<nat>, used: set<nat>)
    requires Distinct(early, kdir) && IdentityBelow(m, kdir, early, 4096) && PageRun(0, 512) <= used
    ensures Tables(m, {kdir}, kdir, used)
  {
    assert forall j :: 0 <= j < 1024 ==> TableOf(m, kdir, j) == if j < 4 then early[j] else -1;
  }

  lemma IdentityWalks(m: Memory, kdir: nat, early: seq<nat>, p: nat)
    requires Distinct(early, kdir) && IdentityBelow(m, kdir, early, 4096) && p < 0x10_0000
    ensures Pte(m, kdir, p) == if p < 4096 then MakeEntry(p * 4096, PAGE_KERNEL) else 0
  {
  }

  /** The memory with the next page mapped, its table entered in the directory. */
  function IdentityNext(m: Memory, kdir: nat, t: nat, q: nat): Memory
    requires kdir < 4096 && t < 4096 && q < 4096
  {
    var m1 := m[kdir := m[kdir][q / 1024 := MakeEntry(t * 4096, PAGE_KERNEL)]];
    m1[t := m1[t][q % 1024 := MakeEntry(q * 4096, PAGE_KERNEL)]]
  }

  lemma IdentityStep(m: Memory, kdir: nat, early: seq<nat>, q: nat)
    requires Distinct(early, kdir) && IdentityBelow(m, kdir, early, q) && q < 4096
    ensures IdentityBelow(IdentityNext(m, kdir, early[q / 1024], q), kdir, early, q + 1)
  {
    var i := q / 1024;
    var m2 := IdentityNext(m, kdir, early[i], q);
    assert m2[kdir] == m[kdir][i := MakeEntry(early[i] * 4096, PAGE_KERNEL)];
    forall j, k | 0 <= j < 4 && 0 <= k < 1024
      ensures m2[early[j]][k] == if j * 1024 + k < q + 1 then MakeEntry((j * 1024 + k) * 4096, PAGE_KERNEL) else 0
    {
      IdentityStepAt(m, kdir, early, q, j, k);
    }
  }

  lemma IdentityStepAt(m: Memory, kdir: nat, early: seq<nat>, q: nat, j: nat, k: nat)
    requires Distinct(early, kdir) && q < 4096 && j < 4 && k < 1024
    requires m[early[j]][k] == if j * 1024 + k < q then MakeEntry((j * 1024 + k) * 4096, PAGE_KERNEL) else 0
    ensures IdentityNext(m, kdir, early[q / 1024], q)[early[j]][k]
         == if j * 1024 + k < q + 1 then MakeEntry((j * 1024 + k) * 4096, PAGE_KERNEL) else 0
  {
  }

  /** The table of the next page is in the directory, unless this is the table's first page. */
  lemma IdentityTable(m: Memory, kdir: nat, early: seq<nat>, q: nat)
    requires Distinct(early, kdir) && IdentityBelow(m, kdir, early, q) && q < 4096
    ensures Present(m[kdir][q / 1024]) <==> q % 1024 != 0
    ensures q % 1024 != 0 ==> m[kdir := m[kdir][q / 1024 := MakeEntry(early[q / 1024] * 4096, PAGE_KERNEL)]] == m
  {
    var i := q / 1024;
    if q % 1024 != 0 {
      assert m[kdir][i := MakeEntry(early[i] * 4096, PAGE_KERNEL)] == m[kdir];
    }
  }

  /** The kernel's directory and the early tables cleared. */
  function Cleared(m: Memory, kdir: nat, early: seq<nat>): Memory {
    seq<Page>(4096, f requires 0 <= f < 4096 => if f == kdir || f in early then Zeros() else m[f])
  }

  lemma IdentityStart(m: Memory, kdir: nat, early: seq<nat>)
    requires Distinct(early, kdir)
    ensures IdentityBelow(Cleared(m, kdir, early), kdir, early, 0)
  {
  }

  /** The identity map of the first 16 MB, its tables taken in turn from the early ones. */
  method IdentityMap(memory: Memory, kdir: nat, early: seq<nat>) returns (m: Memory)
    requires Distinct(early, kdir)
    ensures IdentityBelow(m, kdir, early, 4096)
  {
    m := Cleared(memory, kdir, early);
    IdentityStart(memory, kdir, early);
    var count := 0;
    var q := 0;
    while q < 4096
      invariant q <= 4096 && count == (q + 1023) / 1024
      invariant IdentityBelow(m, kdir, early, q)
    {
      IdentityStep(m, kdir, early, q);
      IdentityTable(m, kdir, early, q);
      var i := q / 1024;
      if !Present(m[kdir][i]) {
        assert count == i;
        m := m[kdir := m[kdir][i := MakeEntry(early[count] * 4096, PAGE_KERNEL)]];
        count := count + 1;
      }
      var t := FrameOf(m[kdir][i]);
      m := m[t := m[t][q % 1024 := MakeEntry(q * 4096, PAGE_KERNEL)]];
      q := q + 1;
    }
  }

  /** A cleared directory page with the kernel's first four entries. */
  method CopyKernelEntries(kernel: Page) returns (page: Page)
    ensures page == kernel[..4] + Zeros()[4..]
  {
    page := Zeros();
    var i := 0;
    while i < 4
      invariant i <= 4 && page == kernel[..i] + Zeros()[i..]
    {
      page := page[i := kernel[i]];
      i := i + 1;
    }
  }

  lemma FreshDirectory(m: Memory, dirs: set<nat>, kdir: nat, used: set<nat>, d: nat)
    requires Tables(m, dirs, kdir, used) && d !in used
    ensures d !in dirs
  {
    TablesAre(m, dirs, kdir, used);
  }

  lemma DirectoryEntered(m: Memory, spaces: set<nat>, kdir: nat, base: set<nat>, used: set<nat>, d: nat)
    requires Tables(m, spaces + {kdir}, kdir, used) && 512 <= d < 4096 && d !in used
    ensures Tables(AddDirectory(m, kdir, d), spaces + {d} + {kdir}, kdir, used + {d})
    ensures Owned(AddDirectory(m, kdir, d), d) == {d}
    ensures Accounted(m, spaces, kdir, base, used) ==>
              Accounted(AddDirectory(m, kdir, d), spaces + {d}, kdir, base, used + {d})
  {
    var dirs := spaces + {kdir};
    AddDirectoryKeeps(m, dirs, kdir, used, d);
    assert dirs + {d} == spaces + {d} + {kdir};
    AddDirectoryOwned(m, dirs, kdir, used, d);
    if Accounted(m, spaces, kdir, base, used) {
      AddDirectoryAccounted(m, spaces, kdir, base, used, d);
    }
  }

  class AddressSpaces {
    const pmm: PageAllocator
    /** The frames of `kernel_directory` and of `early_page_tables`. */
    const kernelDirectory: nat
    const earlyTables: seq<nat>
    var memory: Memory
    var current: nat
    /** The user directories. */
    ghost var spaces: set<nat>
    /** The frames in use that belong to no user directory. */
    ghost var base: set<nat>

    ghost function Dirs(): set<nat>
      reads this
    {
      spaces + {kernelDirectory}
    }

    ghost predicate Valid()
      reads this, pmm, pmm.words
    {
      && pmm.Valid() && kernelDirectory < 512 && (forall d :: d in spaces ==> 512 <= d) && current in Dirs()
      && Tables(memory, Dirs(), kernelDirectory, pmm.Used())
    }

    /** Besides, each frame in use has one owner. */
    ghost predicate Balanced()
      reads this, pmm, pmm.words
    {
      Valid() && Accounted(memory, spaces, kernelDirectory, base, pmm.Used())
    }

    /** `paging_init`. */
    constructor (allocator: PageAllocator, kdir: nat, early: seq<nat>, initial: Memory)
      requires allocator.Valid() && Distinct(early, kdir)
      ensures pmm == allocator && kernelDirectory == kdir && Balanced()
      ensures spaces == {} && base == pmm.Used() && current == kdir
      ensures forall p :: 0 <= p < 0x10_0000 ==>
                Pte(memory, kdir, p) == if p < 4096 then p * 4096 + 3 else 0
    {
      pmm := allocator;
      kernelDirectory := kdir;
      earlyTables := early;
      current := kdir;
      spaces := {};
      base := allocator.Used();
      var m := IdentityMap(initial, kdir, early);
      memory := m;
      new;
      assert Dirs() == {kdir};
      IdentityTables(m, kdir, early, pmm.Used());
      forall p | 0 <= p < 0x10_0000 ensures Pte(m, kdir, p) == if p < 4096 then p * 4096 + 3 else 0 {
        IdentityWalks(m, kdir, early, p);
      }
    }

    /** `paging_map_page`. */
    method MapPage(v: u32, phys: u32, flags: u32)
      requires Valid()
      modifies this, pmm, pmm.words
      ensures Valid() && current == old(current) && spaces == old(spaces) && base == old(base)
      ensures !CanMap(old(memory), current, v / 4096, old(pmm.Used())) ==>
                memory == old(memory) && pmm.Used() == old(pmm.Used())
      ensures CanMap(old(memory), current, v / 4096, old(pmm.Used())) ==>
                Mapped(old(memory), old(pmm.Used()), memory, pmm.Used(), Dirs(), current, v / 4096, MakeEntry(phys, flags))
    {
      var i := v / 4194304;
      var q := v / 4096;
      assert i == q / 1024;
      TableAt(memory, Dirs(), kernelDirectory, pmm.Used(), current, i);
      var x := MakeEntry(phys, flags);
      if !Present(memory[current][i]) {
        var t := pmm.AllocPage();
        if t == 0 {
          return;
        }
        MapInNewTable(memory, Dirs(), kernelDirectory, old(pmm.Used()), current, q, x, t / 4096);
        memory := AddTable(memory, current, i, t / 4096);
        memory := SetEntry(memory, t / 4096, q, x);
      } else {
        var t := FrameOf(memory[current][i]);
        MapInTable(memory, Dirs(), kernelDirectory, pmm.Used(), current, q, x);
        memory := SetEntry(memory, t, q, x);
      }
    }

    /** `paging_unmap_page`: only that page's walk is gone, and no frame is given back. */
    method UnmapPage(v: u32)
      requires Valid()
      modifies this
      ensures Valid() && current == old(current) && spaces == old(spaces) && base == old(base)
      ensures Pte(memory, current, v / 4096) == 0
      ensures forall w: u32 :: w / 4096 == v / 4096 ==> Translate(memory, current, w) == 0
      ensures WalksAs(old(memory), memory, Dirs(), current, v / 4096, 0)
      ensures forall d, j :: d in Dirs() && 0 <= j < 1024 ==> TableOf(memory, d, j) == TableOf(old(memory), d, j)
    {
      var i := v / 4194304;
      var q := v / 4096;
      assert i == q / 1024;
      TableAt(memory, Dirs(), kernelDirectory, pmm.Used(), current, i);
      if !Present(memory[current][i]) {
        return;
      }
      var t := FrameOf(memory[current][i]);
      MapInTable(memory, Dirs(), kernelDirectory, pmm.Used(), current, q, 0);
      memory := SetEntry(memory, t, q, 0);
    }

    /** `paging_switch_directory`, without the processor's part. */
    method SwitchDirectory(d: nat)
      requires Valid() && d in Dirs()
      modifies `current
      ensures Valid() && current == d && (old(Balanced()) ==> Balanced())
    {
      current := d;
    }

    /** `paging_get_physical_address`. */
    method GetPhysicalAddress(v: u32) returns (r: u32)
      requires Valid()
      ensures r == Translate(memory, current, v) && WalkGives(memory, current, v, r)
    {
      TranslateWalks(memory, current, v);
      var i, j := v / 4194304, v / 4096 % 1024;
      assert i == v / 4096 / 1024;
      var pde := memory[current][i];
      if !Present(pde) {
        return 0;
      }
      TableAt(memory, Dirs(), kernelDirectory, pmm.Used(), current, i);
      var pte := memory[FrameOf(pde)][j];
      if !Present(pte) {
        return 0;
      }
      return pte - pte % 4096 + v % 4096;
    }

    /** `paging_create_user_directory`. */
    method CreateUserDirectory() returns (dir: u32)
      requires Valid()
      modifies this, pmm, pmm.words
      ensures Valid() && current == old(current) && base == old(base) && (old(Balanced()) ==> Balanced())
      ensures dir == 0 <==> Full(old(pmm.Used()))
      ensures dir == 0 ==> memory == old(memory) && pmm.Used() == old(pmm.Used()) && spaces == old(spaces)
      ensures dir != 0 ==> dir % 4096 == 0 && spaces == old(spaces) + {dir / 4096} && dir / 4096 !in old(pmm.Used())
      ensures dir != 0 ==> dir / 4096 !in old(Dirs())
      ensures dir != 0 ==> pmm.Used() == old(pmm.Used()) + {dir / 4096} && Owned(memory, dir / 4096) == {dir / 4096}
      ensures dir != 0 ==> memory == AddDirectory(old(memory), kernelDirectory, dir / 4096)
      ensures dir != 0 ==> forall v: u32 ::
                Translate(memory, dir / 4096, v) == if v < 0x100_0000 then Translate(old(memory), kernelDirectory, v) else 0
    {
      dir := pmm.AllocPage();
      if dir == 0 {
        return;
      }
      var page := CopyKernelEntries(memory[kernelDirectory]);
      FreshDirectory(memory, Dirs(), kernelDirectory, old(pmm.Used()), dir / 4096);
      forall v: u32
        ensures Translate(AddDirectory(memory, kernelDirectory, dir / 4096), dir / 4096, v)
             == if v < 0x100_0000 then Translate(memory, kernelDirectory, v) else 0
      {
        NewTranslates(memory, Dirs(), kernelDirectory, old(pmm.Used()), dir / 4096, kernelDirectory, v);
      }
      EnterDirectory(dir / 4096, page, old(pmm.Used()));
    }

    /** The page becomes a directory in the frame just allocated. */
    method EnterDirectory(d: nat, page: Page, ghost used: set<nat>)
      requires pmm.Valid() && kernelDirectory < 512 && (forall e :: e in spaces ==> 512 <= e) && current in Dirs()
      requires Tables(memory, Dirs(), kernelDirectory, used) && 512 <= d < 4096 && d !in used && pmm.Used() == used + {d}
      requires page == memory[kernelDirectory][..4] + Zeros()[4..]
      modifies this
      ensures current == old(current) && base == old(base) && spaces == old(spaces) + {d}
      ensures memory == AddDirectory(old(memory), kernelDirectory, d) && Owned(memory, d) == {d}
      ensures Valid()
      ensures Accounted(old(memory), old(spaces), kernelDirectory, base, used) ==> Balanced()
    {
      DirectoryEntered(memory, spaces, kernelDirectory, base, used, d);
      memory := memory[d := page];
      spaces := spaces + {d};
    }

    /** `paging_map_user_code`: works in the target directory and puts `current_directory` back. */
    method MapUserCode(d: nat, v: u32, phys: u32, size: u32)
      requires Valid() && d in Dirs()
      modifies this, pmm, pmm.words
      ensures Valid() && current == old(current) && spaces == old(spaces) && base == old(base)
      ensures MappedRun(old(memory), memory, pmm.Used(), Dirs(), d, v, phys, PagesOf(size))
      ensures PagesOf(size) == 1 ==> OnePage(old(memory), old(pmm.Used()), memory, pmm.Used(), Dirs(), d, v, phys)
      ensures forall p :: 0 <= p < 0x10_0000 && Ahead(p, v / 4096) < PagesOf(size) && TableOf(memory, d, p / 1024) >= 0 ==>
                Pte(memory, d, p) % 4096 == 7 && !UserReaches(memory, d, p)
    {
      var oldDirectory := current;
      current := d;
      var n := PagesOf(size);
      RunStart(memory, pmm.Used(), Dirs(), d, v, phys);
      assert AddrAt(v, 0) == v && AddrAt(phys, 0) == phys;
      var i := 0;
      while i < n
        invariant i <= n && Valid() && current == d && spaces == old(spaces) && base == old(base)
        invariant MappedRun(old(memory), memory, pmm.Used(), Dirs(), d, v, phys, i)
        invariant i == 0 ==> memory == old(memory) && pmm.Used() == old(pmm.Used())
        invariant i == 1 ==> OnePage(old(memory), old(pmm.Used()), memory, pmm.Used(), Dirs(), d, v, phys)
      {
        ghost var m, used := memory, pmm.Used();
        KernelTables(memory, Dirs(), kernelDirectory, pmm.Used(), d);
        MapPage(AddrAt(v, i), AddrAt(phys, i), PAGE_USER_MODE);
        RunStep(old(memory), m, used, memory, pmm.Used(), Dirs(), d, v, phys, i);
        i := i + 1;
      }
      current := oldDirectory;
      RunFlags(old(memory), memory, pmm.Used(), Dirs(), kernelDirectory, d, v, phys, n);
    }

    /** `paging_free_directory`: every owned frame goes back, and nothing else. */
    method FreeDirectory(dir: u32)
      requires Balanced() && dir % 4096 == 0
      requires dir != 0 ==> dir / 4096 in spaces && dir / 4096 != current
      modifies this, pmm, pmm.words
      ensures Balanced() && memory == old(memory) && current == old(current) && base == old(base)
      ensures spaces == old(spaces) - {dir / 4096}
      ensures pmm.Used() == if dir == 0 then old(pmm.Used()) else old(pmm.Used()) - Owned(memory, dir / 4096)
    {
      if dir == 0 {
        return;
      }
      FreedAccounted(memory, spaces, kernelDirectory, base, pmm.Used(), dir / 4096, pmm.Used() - Owned(memory, dir / 4096));
      KernelTables(memory, Dirs(), kernelDirectory, pmm.Used(), dir / 4096);
      FreeOwned(dir / 4096);
      spaces := spaces - {dir / 4096};
    }

    /** The tables above 16 MB with their pages, then the directory's own frame. */
    method FreeOwned(d: nat)
      requires pmm.Valid() && 512 <= d < 4096 && forall i :: 0 <= i < 1024 ==> TableOf(memory, d, i) < 4096
      modifies pmm, pmm.words
      ensures pmm.Valid() && pmm.Used() == old(pmm.Used()) - Owned(memory, d)
    {
      ghost var done := FreeTables(d);
      FreeFrame(d);
      ReachedAll(memory, d, done);
    }

    /** The tables above 16 MB and the pages they map. */
    method FreeTables(d: nat) returns (ghost done: set<nat>)
      requires pmm.Valid() && d < 4096 && forall i :: 0 <= i < 1024 ==> TableOf(memory, d, i) < 4096
      modifies pmm, pmm.words
      ensures pmm.Valid() && pmm.Used() == old(pmm.Used()) - done && Reached(memory, d, 1024, 0x10_0000, done)
    {
      ReachedNone(memory, d);
      done := {};
      var i := 4;
      while i < 1024
        invariant 4 <= i <= 1024 && pmm.Valid()
        invariant pmm.Used() == old(pmm.Used()) - done && Reached(memory, d, i, i * 1024, done)
      {
        if Present(memory[d][i]) {
          assert TableOf(memory, d, i) < 4096;
          done := FreeTable(d, i, done, old(pmm.Used()));
        } else {
          ReachedAbsent(memory, d, i, done);
        }
        i := i + 1;
      }
    }

    /** One table: the pages it maps, then its own frame. */
    method FreeTable(d: nat, i: nat, ghost before: set<nat>, ghost start: set<nat>) returns (ghost done: set<nat>)
      requires pmm.Valid() && d < 4096 && 4 <= i < 1024 && 0 <= TableOf(memory, d, i) < 4096
      requires pmm.Used() == start - before && Reached(memory, d, i, i * 1024, before)
      modifies pmm, pmm.words
      ensures pmm.Valid() && pmm.Used() == start - done && Reached(memory, d, i + 1, (i + 1) * 1024, done)
    {
      done := FreeTablePages(d, i, before, start);
      done := ReachedTable(memory, d, i, (i + 1) * 1024, done);
      FreeFrame(FrameOf(memory[d][i]));
    }

    method FreeTablePages(d: nat, i: nat, ghost before: set<nat>, ghost start: set<nat>) returns (ghost done: set<nat>)
      requires pmm.Valid() && d < 4096 && 4 <= i < 1024 && 0 <= TableOf(memory, d, i) < 4096
      requires pmm.Used() == start - before && Reached(memory, d, i, i * 1024, before)
      modifies pmm, pmm.words
      ensures pmm.Valid() && pmm.Used() == start - done && Reached(memory, d, i, (i + 1) * 1024, done)
    {
      done := before;
      var t := FrameOf(memory[d][i]);
      ghost var q := i * 1024;
      var j := 0;
      while j < 1024
        invariant j <= 1024 && pmm.Valid() && q == i * 1024 + j
        invariant pmm.Used() == start - done && Reached(memory, d, i, q, done)
      {
        done := ReachedPage(memory, d, i, q, done);
        PteIn(memory, d, i, j);
        if Present(memory[t][j]) {
          FreeFrame(FrameOf(memory[t][j]));
        }
        j, q := j + 1, q + 1;
      }
    }

    method FreeFrame(f: nat)
      requires pmm.Valid() && f < 0x10_0000
      modifies pmm, pmm.words
      ensures pmm.Valid() && pmm.Used() == old(pmm.Used()) - Managed(f)
    {
      FreeableFrame(f);
      var addr := f * 4096;
      pmm.FreePage(addr);
    }

    /** The demand paging step: a frame is taken and mapped at a page that is not present. When the
        frame was the last one and the page needs a table besides, the frame is lost. */
    method TakeAndMap(d: nat, addr: u32) returns (frame: u32)
      requires Balanced() && d in spaces && 4096 <= addr / 4096 && !Present(Pte(memory, d, addr / 4096))
      modifies this, pmm, pmm.words
      ensures Balanced() && current == old(current) && spaces == old(spaces) && frame % 4096 == 0
      ensures frame == 0 <==> Full(old(pmm.Used()))
      ensures frame == 0 ==> memory == old(memory) && pmm.Used() == old(pmm.Used()) && base == old(base)
      ensures frame != 0 ==> Taken(old(memory), old(pmm.Used()), old(base), memory, pmm.Used(), base, Dirs(), d, addr / 4096, frame)
      ensures frame != 0 && TableOf(memory, d, addr / 4096 / 1024) >= 0 ==> Pte(memory, d, addr / 4096) == frame + 7
    {
      frame := pmm.AllocPage();
      if frame == 0 {
        return;
      }
      ghost var used, taken := old(pmm.Used()), pmm.Used();
      TablesMore(memory, Dirs(), kernelDirectory, used, taken);
      var page := addr - addr % 4096;
      assert page / 4096 == addr / 4096;
      MapUserCode(d, page, frame, 4096);
      base := TakenAccounted(old(memory), used, memory, pmm.Used(), spaces, kernelDirectory, base, d, page, frame);
    }

    /** `page_fault_handler` as far as it goes without halting: a missing page of a user process, above
        the code and below the stack's top, gets a frame. */
    method HandleFault(errorCode: u32, addr: u32, userMode: bool, d: nat) returns (handled: bool)
      requires Balanced() && (userMode ==> d in spaces && (errorCode % 2 == 0 ==> !Present(Pte(memory, d, addr / 4096))))
      modifies this, pmm, pmm.words
      ensures Balanced() && current == old(current) && spaces == old(spaces)
      ensures handled <==>
              errorCode % 2 == 0 && errorCode / 8 % 2 == 0 && userMode && 0x4004_0000 <= addr < 0x8000_0000 && !Full(old(pmm.Used()))
      ensures !handled ==> memory == old(memory) && pmm.Used() == old(pmm.Used()) && base == old(base)
      ensures handled ==> exists frame: u32 ::
                Taken(old(memory), old(pmm.Used()), old(base), memory, pmm.Used(), base, Dirs(), d, addr / 4096, frame)
      ensures handled && TableOf(memory, d, addr / 4096 / 1024) >= 0 ==> Pte(memory, d, addr / 4096) % 4096 == 7
    {
      var present, reserved := errorCode % 2, errorCode / 8 % 2;
      if present == 0 && reserved == 0 {
        var stackLimit := 0x8000_0000 - 0x10_0000;
        var isStack := addr >= stackLimit && addr < 0x8000_0000;
        var isHeap := addr >= 0x4000_0000 + 0x4_0000 && addr < 0x8000_0000;
        if userMode && (isStack || isHeap) {
          var frame := TakeAndMap(d, addr);
          if frame != 0 {
            return true;
          }
        }
      }
      return false;
    }
  }

  /** What a user directory took since it was created is what it owns, but for the frames lost. */
  ghost predicate TookOnly(m: Memory, d: nat, used: set<nat>, start: set<nat>, lost: set<nat>)
    requires d < 4096
  {
    used == start + Owned(m, d) + lost && Owned(m, d) !! (start + lost)
  }

  lemma TookBack(m: Memory, d: nat, used: set<nat>, start: set<nat>, lost: set<nat>)
    requires d < 4096 && TookOnly(m, d, used, start, lost)
    ensures used - Owned(m, d) == start + lost
  {
  }

  /** One page of user directory `d` is touched: mapped to a new frame unless it is present. */
  method Touch(a: AddressSpaces, d: nat, addr: u32, ghost start: set<nat>, ghost lost: set<nat>) returns (ok: bool, ghost lost': set<nat>)
    requires a.Balanced() && d in a.spaces && 4096 <= addr / 4096 && TookOnly(a.memory, d, a.pmm.Used(), start, lost)
    modifies a, a.pmm, a.pmm.words
    ensures a.Balanced() && a.spaces == old(a.spaces) && a.current == old(a.current)
    ensures TookOnly(a.memory, d, a.pmm.Used(), start, lost') && (ok ==> lost' == lost)
    ensures ok ==> Present(Pte(a.memory, d, addr / 4096))
  {
    lost' := lost;
    if Present(Pte(a.memory, d, addr / 4096)) {
      return true, lost';
    }
    ghost var m, used, base := a.memory, a.pmm.Used(), a.base;
    var frame := a.TakeAndMap(d, addr);
    if frame == 0 {
      return false, lost';
    }
    lost' := TakenLost(m, used, base, a.memory, a.pmm.Used(), a.base, a.Dirs(), a.kernelDirectory, d, addr / 4096, frame, start, lost);
    ok := Present(Pte(a.memory, d, addr / 4096));
  }

  /** Any number of pages touched. */
  method TouchAll(a: AddressSpaces, d: nat, pages: seq<u32>, ghost start: set<nat>) returns (ok: bool, ghost lost: set<nat>)
    requires a.Balanced() && d in a.spaces && forall k :: 0 <= k < |pages| ==> 4096 <= pages[k] / 4096
    requires TookOnly(a.memory, d, a.pmm.Used(), start, {})
    modifies a, a.pmm, a.pmm.words
    ensures a.Balanced() && a.spaces == old(a.spaces) && a.current == old(a.current)
    ensures TookOnly(a.memory, d, a.pmm.Used(), start, lost) && (ok ==> lost == {})
  {
    ok, lost := true, {};
    var k := 0;
    while k < |pages|
      invariant k <= |pages| && a.Balanced() && a.spaces == old(a.spaces) && a.current == old(a.current)
      invariant TookOnly(a.memory, d, a.pmm.Used(), start, lost) && (ok ==> lost == {})
    {
      var done;
      done, lost := Touch(a, d, pages[k], start, lost);
      ok := ok && done;
      k := k + 1;
    }
  }

  /** A user directory created and its pages touched. */
  method CreateAndTouch(a: AddressSpaces, pages: seq<u32>) returns (dir: u32, ok: bool, ghost lost: set<nat>)
    requires a.Balanced() && forall k :: 0 <= k < |pages| ==> 4096 <= pages[k] / 4096
    modifies a, a.pmm, a.pmm.words
    ensures a.Balanced() && a.current == old(a.current) && dir % 4096 == 0 && (ok ==> lost == {})
    ensures dir == 0 ==> !ok && lost == {} && a.spaces == old(a.spaces) && a.pmm.Used() == old(a.pmm.Used())
    ensures dir != 0 ==> dir / 4096 in a.spaces && dir / 4096 != a.current && a.spaces - {dir / 4096} == old(a.spaces)
    ensures dir != 0 ==> TookOnly(a.memory, dir / 4096, a.pmm.Used(), old(a.pmm.Used()), lost)
  {
    ghost var start := a.pmm.Used();
    ok, lost := false, {};
    dir := a.CreateUserDirectory();
    if dir != 0 {
      var d := dir / 4096;
      assert d != a.current && a.spaces - {d} == old(a.spaces);
      ok, lost := TouchAll(a, d, pages, start);
    }
  }

  /** A user directory's whole life: created, a frame taken and mapped at each of the pages that is not
      present yet, then freed. If every step succeeded, the page allocator is exactly as it was. */
  method Lifecycle(a: AddressSpaces, pages: seq<u32>) returns (ok: bool, ghost lost: set<nat>)
    requires a.Balanced() && forall k :: 0 <= k < |pages| ==> 4096 <= pages[k] / 4096
    modifies a, a.pmm, a.pmm.words
    ensures a.Balanced() && a.spaces == old(a.spaces) && a.current == old(a.current)
    ensures a.pmm.Used() == old(a.pmm.Used()) + lost
    ensures ok ==> lost == {} && a.pmm.usedPages == old(a.pmm.usedPages) && a.pmm.words[..] == old(a.pmm.words[..])
  {
    a.pmm.TiedIs();
    var dir;
    dir, ok, lost := CreateAndTouch(a, pages);
    if dir != 0 {
      TookBack(a.memory, dir / 4096, a.pmm.Used(), old(a.pmm.Used()), lost);
      a.FreeDirectory(dir);
      if ok {
        a.pmm.TiedIs();
        UsedDetermines(a.pmm.words[..], old(a.pmm.words[..]));
      }
    }
  }
}
