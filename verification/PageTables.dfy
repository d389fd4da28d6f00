/** Two-level page tables as words of physical frames: what a walk finds, who owns which frame,
    and how each elementary change to a directory or a table shows in every walk. */
module PageTables {
  import opened Words

  /** A 4 KB frame read as 1024 entries. */
  type Page = p: seq<u32> | |p| == 1024 witness seq(1024, _ => 0)

  /** A cleared frame. */
  function Zeros(): Page {
    seq(1024, _ => 0)
  }

  /** The 4096 frames of physical memory. */
  type Memory = m: seq<Page> | |m| == 4096 witness seq<Page>(4096, _ => Zeros())

  const PAGE_KERNEL: nat := 3
  const PAGE_USER_MODE: nat := 7

  predicate Present(e: u32) {
    e % 2 == 1
  }

  function FrameOf(e: u32): nat {
    e / 4096
  }

  lemma EntryParts(q: nat, f: nat)
    requires f < 4096
    ensures (q * 4096 + f) / 4096 == q && (q * 4096 + f) % 4096 == f && (q * 4096 + f) % 2 == f % 2
  {
  }

  lemma FlagParts(flags: u32)
    ensures flags % 4096 % 2 == flags % 2
  {
  }

  /** `make_pde` and `make_pte`. */
  function MakeEntry(addr: u32, flags: u32): (e: u32)
    ensures FrameOf(e) == FrameOf(addr) && e % 4096 == flags % 4096 && (Present(e) <==> Present(flags))
  {
    EntryParts(addr / 4096, flags % 4096);
    FlagParts(flags);
    addr / 4096 * 4096 + flags % 4096
  }

  /** The frame of the table that entry `i` of directory `d` points to, or -1. */
  function TableOf(m: Memory, d: nat, i: nat): (t: int)
    requires d < 4096 && i < 1024
    ensures t >= -1
  {
    if Present(m[d][i]) then FrameOf(m[d][i]) else -1
  }

  /** The table entry a walk of virtual page `q` from directory `d` ends at; 0 where there is no table. */
  function Pte(m: Memory, d: nat, q: nat): (e: u32)
    requires d < 4096 && q < 0x10_0000
  {
    var t := TableOf(m, d, q / 1024);
    if 0 <= t < 4096 then m[t][q % 1024] else 0
  }

  // ---------------------------------------------------------------- the shape of the structure

  /** Directories and the tables they point to are frames in use, and no frame is both. */
  ghost predicate Placed(m: Memory, dirs: set<nat>, used: set<nat>) {
    && (forall d :: d in dirs ==> d < 4096 && d in used)
    && (forall d, i :: d in dirs && 0 <= i < 1024 && TableOf(m, d, i) >= 0 ==>
          TableOf(m, d, i) < 4096 && TableOf(m, d, i) in used && TableOf(m, d, i) !in dirs)
  }

  /** Every directory entry in use says present and writable, and not user. */
  ghost predicate KernelOnly(m: Memory, dirs: set<nat>)
    requires forall d :: d in dirs ==> d < 4096
  {
    forall d, i :: d in dirs && 0 <= i < 1024 && Present(m[d][i]) ==> m[d][i] % 4096 == 3
  }

  /** A table is pointed to from one place, save that all directories share the first four. */
  ghost predicate Single(m: Memory, dirs: set<nat>)
    requires forall d :: d in dirs ==> d < 4096
  {
    forall d, i, e, j ::
      d in dirs && e in dirs && 0 <= i < 1024 && 0 <= j < 1024 && 0 <= TableOf(m, d, i) == TableOf(m, e, j) ==>
        i == j && (d == e || i < 4)
  }

  /** The first 16 MB of every directory are the kernel's. */
  ghost predicate Shared(m: Memory, dirs: set<nat>, kdir: nat)
    requires forall d :: d in dirs ==> d < 4096
  {
    kdir in dirs && forall d, i :: d in dirs && 0 <= i < 4 ==> TableOf(m, d, i) == TableOf(m, kdir, i) >= 0
  }

  /** The four together, folded. */
  ghost predicate Tables(m: Memory, dirs: set<nat>, kdir: nat, used: set<nat>) {
    && kdir in dirs && (forall d :: d in dirs ==> d < 4096)
    && (forall k {:trigger Unfold(OfTables, k)} :: Unfold(OfTables, k) ==>
          Placed(m, dirs, used) && KernelOnly(m, dirs) && Single(m, dirs) && Shared(m, dirs, kdir))
  }

  lemma TablesAre(m: Memory, dirs: set<nat>, kdir: nat, used: set<nat>)
    requires Tables(m, dirs, kdir, used)
    ensures Placed(m, dirs, used) && KernelOnly(m, dirs) && Single(m, dirs) && Shared(m, dirs, kdir)
  {
    assert Unfold(OfTables, 0);
  }

  /** A directory entry that is present points to a frame in use that is no directory. */
  lemma TableAt(m: Memory, dirs: set<nat>, kdir: nat, used: set<nat>, d: nat, i: nat)
    requires Tables(m, dirs, kdir, used) && d in dirs && i < 1024
    ensures TableOf(m, d, i) >= 0 ==> TableOf(m, d, i) < 4096 && TableOf(m, d, i) in used && TableOf(m, d, i) !in dirs
    ensures i < 4 ==> TableOf(m, d, i) >= 0
    ensures d in used
  {
    TablesAre(m, dirs, kdir, used);
  }

  /** What the processor asks before it lets user mode reach page `q`: present and user in both entries. */
  predicate UserReaches(m: Memory, d: nat, q: nat)
    requires d < 4096 && q < 0x10_0000
  {
    var pde, pte := m[d][q / 1024], Pte(m, d, q);
    Present(pde) && pde / 4 % 2 == 1 && Present(pte) && pte / 4 % 2 == 1
  }

  /** No page of any directory passes: the entry of the page may say user, the directory's never does. */
  lemma NoUserPages(m: Memory, dirs: set<nat>, kdir: nat, used: set<nat>, d: nat, q: nat)
    requires Tables(m, dirs, kdir, used) && d in dirs && q < 0x10_0000
    ensures !UserReaches(m, d, q)
  {
    TablesAre(m, dirs, kdir, used);
    var pde := m[d][q / 1024];
    if Present(pde) {
      assert pde % 4096 == 3;
      assert pde == pde / 4096 * 4096 + 3;
    }
  }

  /** More frames in use do not disturb the structure. */
  lemma TablesMore(m: Memory, dirs: set<nat>, kdir: nat, used: set<nat>, more: set<nat>)
    requires Tables(m, dirs, kdir, used) && used <= more
    ensures Tables(m, dirs, kdir, more)
  {
    TablesAre(m, dirs, kdir, used);
  }

  // ---------------------------------------------------------------- a new table

  /** A cleared table in frame `t`, entered at `i` of directory `d`. */
  function AddTable(m: Memory, d: nat, i: nat, t: nat): Memory
    requires d < 4096 && i < 1024 && t < 4096
  {
    var cleared := m[t := Zeros()];
    cleared[d := cleared[d][i := MakeEntry(t * 4096, PAGE_KERNEL)]]
  }

  lemma AddTableEntries(m: Memory, dirs: set<nat>, kdir: nat, used: set<nat>, d: nat, i: nat, t: nat)
    requires Tables(m, dirs, kdir, used) && d in dirs && i < 1024 && t < 4096 && t !in used && TableOf(m, d, i) < 0
    ensures forall e, j :: e in dirs && 0 <= j < 1024 ==>
              TableOf(AddTable(m, d, i, t), e, j) == if e == d && j == i then t else TableOf(m, e, j)
  {
    TablesAre(m, dirs, kdir, used);
  }

  lemma AddTableKeeps(m: Memory, dirs: set<nat>, kdir: nat, used: set<nat>, d: nat, i: nat, t: nat)
    requires Tables(m, dirs, kdir, used) && d in dirs && i < 1024 && t < 4096 && t !in used && TableOf(m, d, i) < 0
    ensures Tables(AddTable(m, d, i, t), dirs, kdir, used + {t})
  {
    TablesAre(m, dirs, kdir, used);
    AddTableEntries(m, dirs, kdir, used, d, i, t);
  }

  /** A new table changes no walk. */
  lemma AddTableWalks(m: Memory, dirs: set<nat>, kdir: nat, used: set<nat>, d: nat, i: nat, t: nat, e: nat, q: nat)
    requires Tables(m, dirs, kdir, used) && d in dirs && i < 1024 && t < 4096 && t !in used && TableOf(m, d, i) < 0
    requires e in dirs && q < 0x10_0000
    ensures Pte(AddTable(m, d, i, t), e, q) == Pte(m, e, q)
  {
    TablesAre(m, dirs, kdir, used);
    AddTableEntries(m, dirs, kdir, used, d, i, t);
    var s := TableOf(m, e, q / 1024);
    assert s >= 0 ==> s in used && s !in dirs;
  }

  // ---------------------------------------------------------------- a table entry

  /** Entry `q % 1024` of the table in frame `t` becomes `x`. */
  function SetEntry(m: Memory, t: nat, q: nat, x: u32): Memory
    requires t < 4096
  {
    m[t := m[t][q % 1024 := x]]
  }

  lemma SetEntryKeeps(m: Memory, dirs: set<nat>, kdir: nat, used: set<nat>, t: nat, q: nat, x: u32)
    requires Tables(m, dirs, kdir, used) && t < 4096 && t !in dirs
    ensures Tables(SetEntry(m, t, q, x), dirs, kdir, used)
    ensures forall e, j :: e in dirs && 0 <= j < 1024 ==> TableOf(SetEntry(m, t, q, x), e, j) == TableOf(m, e, j)
  {
    TablesAre(m, dirs, kdir, used);
    var m' := SetEntry(m, t, q, x);
    assert forall e :: e in dirs ==> m'[e] == m[e];
    assert forall e, j :: e in dirs && 0 <= j < 1024 ==> TableOf(m', e, j) == TableOf(m, e, j);
  }

  /** Writing the entry of page `q` shows in the walk of `q` from directory `d` alone, or, below
      16 MB, in the walk of `q` from every directory. */
  lemma SetEntryWalks(m: Memory, dirs: set<nat>, kdir: nat, used: set<nat>, d: nat, q: nat, x: u32, e: nat, p: nat)
    requires Tables(m, dirs, kdir, used) && d in dirs && e in dirs && q < 0x10_0000 && p < 0x10_0000
    requires TableOf(m, d, q / 1024) >= 0
    ensures TableOf(m, d, q / 1024) < 4096
    ensures Pte(SetEntry(m, TableOf(m, d, q / 1024), q, x), e, p)
         == if p == q && (e == d || q < 4096) then x else Pte(m, e, p)
  {
    TablesAre(m, dirs, kdir, used);
    var t := TableOf(m, d, q / 1024);
    SetEntryKeeps(m, dirs, kdir, used, t, q, x);
    var s := TableOf(m, e, p / 1024);
    if s == t {
      assert p / 1024 == q / 1024 && (d == e || q / 1024 < 4);
    }
  }

  // ---------------------------------------------------------------- a page mapped or unmapped

  /** Every walk ends where it did, but for that of page `q`: from `d`, or below 16 MB from anywhere. */
  ghost predicate WalksAs(m: Memory, m': Memory, dirs: set<nat>, d: nat, q: nat, x: u32)
    requires forall e :: e in dirs ==> e < 4096
  {
    forall e, p :: e in dirs && 0 <= p < 0x10_0000 ==>
      Pte(m', e, p) == if p == q && (e == d || q < 4096) then x else Pte(m, e, p)
  }

  /** Every directory entry points where it did, but for entry `i` of `d`. */
  ghost predicate TablesAs(m: Memory, m': Memory, dirs: set<nat>, d: nat, i: nat, t: int)
    requires forall e :: e in dirs ==> e < 4096
  {
    forall e, j :: e in dirs && 0 <= j < 1024 ==> TableOf(m', e, j) == if e == d && j == i then t else TableOf(m, e, j)
  }

  /** Page `q` of directory `d` got entry `x`, in a new frame's table if there was none. */
  ghost predicate Mapped(m: Memory, used: set<nat>, m': Memory, used': set<nat>, dirs: set<nat>, d: nat, q: nat, x: u32)
    requires (forall e :: e in dirs ==> e < 4096) && d in dirs && q < 0x10_0000
  {
    var was, t := TableOf(m, d, q / 1024), TableOf(m', d, q / 1024);
    && t >= 0 && WalksAs(m, m', dirs, d, q, x) && TablesAs(m, m', dirs, d, q / 1024, t)
    && (if was >= 0 then t == was && used' == used else t !in used && 512 <= t < 4096 && used' == used + {t as nat})
  }

  /** Mapping into a table that is there. */
  lemma MapInTable(m: Memory, dirs: set<nat>, kdir: nat, used: set<nat>, d: nat, q: nat, x: u32)
    requires Tables(m, dirs, kdir, used) && d in dirs && q < 0x10_0000 && TableOf(m, d, q / 1024) >= 0
    ensures TableOf(m, d, q / 1024) < 4096
    ensures var m' := SetEntry(m, TableOf(m, d, q / 1024), q, x);
            Tables(m', dirs, kdir, used) && Mapped(m, used, m', used, dirs, d, q, x)
  {
    TablesAre(m, dirs, kdir, used);
    var t := TableOf(m, d, q / 1024);
    var m' := SetEntry(m, t, q, x);
    SetEntryKeeps(m, dirs, kdir, used, t, q, x);
    forall e, p | e in dirs && 0 <= p < 0x10_0000
      ensures Pte(m', e, p) == if p == q && (e == d || q < 4096) then x else Pte(m, e, p)
    {
      SetEntryWalks(m, dirs, kdir, used, d, q, x, e, p);
    }
  }

  /** Mapping into a new table. */
  lemma MapInNewTable(m: Memory, dirs: set<nat>, kdir: nat, used: set<nat>, d: nat, q: nat, x: u32, t: nat)
    requires Tables(m, dirs, kdir, used) && d in dirs && q < 0x10_0000 && TableOf(m, d, q / 1024) < 0
    requires t !in used && 512 <= t < 4096
    ensures var m' := SetEntry(AddTable(m, d, q / 1024, t), t, q, x);
            Tables(m', dirs, kdir, used + {t}) && Mapped(m, used, m', used + {t}, dirs, d, q, x)
  {
    var i := q / 1024;
    var m1 := AddTable(m, d, i, t);
    var m' := SetEntry(m1, t, q, x);
    AddTableEntries(m, dirs, kdir, used, d, i, t);
    AddTableKeeps(m, dirs, kdir, used, d, i, t);
    assert TableOf(m1, d, i) == t;
    MapInTable(m1, dirs, kdir, used + {t}, d, q, x);
    forall e, p | e in dirs && 0 <= p < 0x10_0000 ensures Pte(m1, e, p) == Pte(m, e, p) {
      AddTableWalks(m, dirs, kdir, used, d, i, t, e, p);
    }
  }

  // ---------------------------------------------------------------- a new directory

  /** A directory in frame `d` with nothing but the kernel's first four entries. */
  function AddDirectory(m: Memory, kdir: nat, d: nat): Memory
    requires kdir < 4096 && d < 4096
  {
    m[d := m[kdir][..4] + Zeros()[4..]]
  }

  lemma AddDirectoryEntries(m: Memory, dirs: set<nat>, kdir: nat, used: set<nat>, d: nat)
    requires Placed(m, dirs, used) && kdir < 4096 && d < 4096 && d !in used
    ensures var m' := AddDirectory(m, kdir, d);
            && (forall e, j :: e in dirs && 0 <= j < 1024 ==> TableOf(m', e, j) == TableOf(m, e, j))
            && (forall j :: 0 <= j < 1024 ==> TableOf(m', d, j) == if j < 4 then TableOf(m, kdir, j) else -1)
  {
    var m' := AddDirectory(m, kdir, d);
    assert forall e :: e in dirs ==> m'[e] == m[e];
    assert forall j :: 0 <= j < 4 ==> m'[d][j] == m[kdir][j];
    assert forall j :: 4 <= j < 1024 ==> m'[d][j] == 0;
  }

  lemma AddDirectoryKeeps(m: Memory, dirs: set<nat>, kdir: nat, used: set<nat>, d: nat)
    requires Tables(m, dirs, kdir, used) && d < 4096 && d !in used
    ensures Tables(AddDirectory(m, kdir, d), dirs + {d}, kdir, used + {d})
  {
    TablesAre(m, dirs, kdir, used);
    var m' := AddDirectory(m, kdir, d);
    AddDirectoryEntries(m, dirs, kdir, used, d);
    assert Placed(m', dirs + {d}, used + {d});
    assert Shared(m', dirs + {d}, kdir);
    forall a, i, b, j |
      a in dirs + {d} && b in dirs + {d} && 0 <= i < 1024 && 0 <= j < 1024 && 0 <= TableOf(m', a, i) == TableOf(m', b, j)
      ensures i == j && (a == b || i < 4)
    {
      var a' := if a == d then kdir else a;
      var b' := if b == d then kdir else b;
      assert TableOf(m, a', i) == TableOf(m, b', j) >= 0;
    }
  }

  /** The new directory walks the kernel's 16 MB and nothing else; no other walk changes. */
  lemma AddDirectoryWalks(m: Memory, dirs: set<nat>, kdir: nat, used: set<nat>, d: nat, e: nat, p: nat)
    requires Tables(m, dirs, kdir, used) && d < 4096 && d !in used && p < 0x10_0000
    ensures e in dirs ==> Pte(AddDirectory(m, kdir, d), e, p) == Pte(m, e, p)
    ensures Pte(AddDirectory(m, kdir, d), d, p) == if p < 4096 then Pte(m, kdir, p) else 0
  {
    TablesAre(m, dirs, kdir, used);
    AddDirectoryEntries(m, dirs, kdir, used, d);
    if e in dirs {
      assert TableOf(m, e, p / 1024) >= 0 ==> TableOf(m, e, p / 1024) in used;
    }
    assert TableOf(m, kdir, p / 1024) >= 0 ==> TableOf(m, kdir, p / 1024) in used;
  }
}
