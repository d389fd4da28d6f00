/** Which frames a user directory owns, and why freeing it returns exactly those. */
module PageOwnership {
  import opened Words
  import opened PageTables

  ghost predicate Maps(m: Memory, d: nat, q: nat, f: nat)
    requires d < 4096 && q < 0x10_0000
  {
    Present(Pte(m, d, q)) && FrameOf(Pte(m, d, q)) == f
  }

  /** The directory's own frame, its tables above 16 MB, and the frames they map. */
  ghost predicate Owns(m: Memory, d: nat, f: nat)
    requires d < 4096
  {
    || f == d
    || (exists i :: 4 <= i < 1024 && TableOf(m, d, i) == f)
    || (exists q :: 4096 <= q < 0x10_0000 && Maps(m, d, q, f))
  }

  /** The owned frames that the page allocator manages: those it lets be freed. */
  ghost function Owned(m: Memory, d: nat): (r: set<nat>)
    requires d < 4096
    ensures forall f :: f in r <==> 512 <= f < 4096 && Owns(m, d, f)
  {
    set f: nat | 512 <= f < 4096 && Owns(m, d, f)
  }

  /** A page mapped where there was none adds its frame, and its table if that is new, to the owner,
      and nothing to anyone else. */
  lemma OwnsMapped(m: Memory, used: set<nat>, m': Memory, used': set<nat>, dirs: set<nat>, d: nat, q: nat, x: u32, f: nat)
    requires (forall e :: e in dirs ==> e < 4096) && d in dirs && 4096 <= q < 0x10_0000
    requires Mapped(m, used, m', used', dirs, d, q, x) && Present(x) && !Present(Pte(m, d, q))
    ensures Owns(m', d, f) <==> Owns(m, d, f) || f == FrameOf(x) || f == TableOf(m', d, q / 1024)
  {
    if Owns(m, d, f) && f != d {
      if i :| 4 <= i < 1024 && TableOf(m, d, i) == f {
        assert TableOf(m', d, i) == f;
      } else {
        var p :| 4096 <= p < 0x10_0000 && Maps(m, d, p, f);
        assert Maps(m', d, p, f);
      }
    }
    assert Maps(m', d, q, FrameOf(x));
    if Owns(m', d, f) && f != d {
      if i :| 4 <= i < 1024 && TableOf(m', d, i) == f {
        assert i != q / 1024 ==> TableOf(m, d, i) == f;
      } else {
        var p :| 4096 <= p < 0x10_0000 && Maps(m', d, p, f);
        assert p != q ==> Maps(m, d, p, f);
      }
    }
  }

  /** If two memories agree on a directory's entries and walks, it owns the same in both. */
  lemma OwnsSame(m: Memory, m': Memory, d: nat)
    requires d < 4096
    requires forall j :: 0 <= j < 1024 ==> TableOf(m', d, j) == TableOf(m, d, j)
    requires forall p :: 4096 <= p < 0x10_0000 ==> Pte(m', d, p) == Pte(m, d, p)
    ensures Owned(m', d) == Owned(m, d)
  {
    forall f: nat ensures Owns(m', d, f) == Owns(m, d, f) {
      forall p | 4096 <= p < 0x10_0000 ensures Maps(m', d, p, f) == Maps(m, d, p, f) {
      }
    }
  }

  lemma MappedOthers(m: Memory, used: set<nat>, m': Memory, used': set<nat>, dirs: set<nat>, d: nat, q: nat, x: u32, e: nat)
    requires (forall e :: e in dirs ==> e < 4096) && d in dirs && e in dirs && e != d && 4096 <= q < 0x10_0000
    requires Mapped(m, used, m', used', dirs, d, q, x)
    ensures Owned(m', e) == Owned(m, e)
  {
    OwnsSame(m, m', e);
  }

  // ---------------------------------------------------------------- all frames in use, by owner

  ghost predicate OneOwner(m: Memory, spaces: set<nat>, base: set<nat>, used: set<nat>)
    requires forall d :: d in spaces ==> d < 4096
  {
    && base <= used
    && (forall d, f :: d in spaces && f in Owned(m, d) ==> f in used && f !in base)
    && (forall d, e, f :: d in spaces && e in spaces && f in Owned(m, d) && f in Owned(m, e) ==> d == e)
    && (forall f :: f in used && f !in base ==> exists d :: d in spaces && f in Owned(m, d))
  }

  /** The kernel's directory and its tables are no user directory's. */
  ghost predicate KernelApart(m: Memory, kdir: nat, base: set<nat>)
    requires kdir < 4096
  {
    kdir in base && forall i :: 0 <= i < 1024 && TableOf(m, kdir, i) >= 0 ==> TableOf(m, kdir, i) in base
  }

  /** Every frame in use is either one of `base`, as the kernel's tables are, or owned by exactly one
      of the user directories. Folded. */
  ghost predicate Accounted(m: Memory, spaces: set<nat>, kdir: nat, base: set<nat>, used: set<nat>) {
    && kdir < 4096 && (forall d :: d in spaces ==> d < 4096)
    && (forall k {:trigger Unfold(OfAccounted, k)} :: Unfold(OfAccounted, k) ==> OneOwner(m, spaces, base, used) && KernelApart(m, kdir, base))
  }

  lemma AccountedIs(m: Memory, spaces: set<nat>, kdir: nat, base: set<nat>, used: set<nat>)
    requires Accounted(m, spaces, kdir, base, used)
    ensures OneOwner(m, spaces, base, used) && KernelApart(m, kdir, base)
  {
    assert Unfold(OfAccounted, 0);
  }

  /** Once there are no user directories, what is in use is the base. */
  lemma NoSpaces(m: Memory, kdir: nat, base: set<nat>, used: set<nat>)
    requires Accounted(m, {}, kdir, base, used)
    ensures used == base
  {
    AccountedIs(m, {}, kdir, base, used);
  }

  /** A frame taken for anything else joins the base. */
  lemma BaseGrows(m: Memory, spaces: set<nat>, kdir: nat, base: set<nat>, used: set<nat>, f: nat)
    requires Accounted(m, spaces, kdir, base, used) && f !in used
    ensures Accounted(m, spaces, kdir, base + {f}, used + {f})
  {
  }

  lemma AddDirectoryOwned(m: Memory, dirs: set<nat>, kdir: nat, used: set<nat>, d: nat)
    requires Tables(m, dirs, kdir, used) && 512 <= d < 4096 && d !in used
    ensures Owned(AddDirectory(m, kdir, d), d) == {d}
    ensures forall e :: e in dirs ==> Owned(AddDirectory(m, kdir, d), e) == Owned(m, e)
  {
    TablesAre(m, dirs, kdir, used);
    var m' := AddDirectory(m, kdir, d);
    AddDirectoryEntries(m, dirs, kdir, used, d);
    forall p: nat | 4096 <= p < 0x10_0000 ensures Pte(m', d, p) == 0 {
      AddDirectoryWalks(m, dirs, kdir, used, d, d, p);
    }
    forall e | e in dirs ensures Owned(m', e) == Owned(m, e) {
      forall p: nat | p < 0x10_0000 ensures Pte(m', e, p) == Pte(m, e, p) {
        AddDirectoryWalks(m, dirs, kdir, used, d, e, p);
      }
      OwnsSame(m, m', e);
    }
  }

  /** A new user directory takes one frame. */
  lemma AddDirectoryAccounted(m: Memory, spaces: set<nat>, kdir: nat, base: set<nat>, used: set<nat>, d: nat)
    requires Tables(m, spaces + {kdir}, kdir, used) && Accounted(m, spaces, kdir, base, used)
    requires 512 <= d < 4096 && d !in used
    ensures Accounted(AddDirectory(m, kdir, d), spaces + {d}, kdir, base, used + {d})
  {
    AccountedIs(m, spaces, kdir, base, used);
    TablesAre(m, spaces + {kdir}, kdir, used);
    AddDirectoryOwned(m, spaces + {kdir}, kdir, used, d);
    AddDirectoryEntries(m, spaces + {kdir}, kdir, used, d);
  }

  /** One directory owns more, exactly what was taken; nobody else's frames change. */
  lemma OwnerGrows(m: Memory, m': Memory, spaces: set<nat>, base: set<nat>, used: set<nat>, d: nat, more: set<nat>)
    requires (forall e :: e in spaces ==> e < 4096) && OneOwner(m, spaces, base, used) && d in spaces && more !! used
    requires Owned(m', d) == Owned(m, d) + more
    requires forall e :: e in spaces && e != d ==> Owned(m', e) == Owned(m, e)
    ensures OneOwner(m', spaces, base, used + more)
  {
  }

  /** A page mapped where there was none: the directory owns its frame and its table besides what it owned. */
  lemma MappedOwned(m: Memory, used: set<nat>, m': Memory, used': set<nat>, dirs: set<nat>, kdir: nat, d: nat, q: nat, x: u32)
    requires Tables(m, dirs, kdir, used) && d in dirs && 4096 <= q < 0x10_0000
    requires Mapped(m, used, m', used', dirs, d, q, x)
    requires Present(x) && 512 <= FrameOf(x) < 4096 && !Present(Pte(m, d, q))
    ensures used <= used' && Owned(m', d) == Owned(m, d) + {FrameOf(x)} + (used' - used)
  {
    TablesAre(m, dirs, kdir, used);
    var t := TableOf(m', d, q / 1024);
    forall f: nat ensures Owns(m', d, f) <==> Owns(m, d, f) || f == FrameOf(x) || f == t {
      OwnsMapped(m, used, m', used', dirs, d, q, x, f);
    }
    if TableOf(m, d, q / 1024) >= 0 {
      assert Owns(m, d, t);
    }
  }

  /** A frame taken and mapped, with its table: the directory owns what was taken. */
  lemma MappedAccounted(m: Memory, used: set<nat>, m': Memory, used': set<nat>, spaces: set<nat>, kdir: nat, base: set<nat>,
                        d: nat, q: nat, frame: nat, x: u32)
    requires Tables(m, spaces + {kdir}, kdir, used) && Accounted(m, spaces, kdir, base, used)
    requires d in spaces && d != kdir && 4096 <= q < 0x10_0000 && frame !in used && 512 <= frame < 4096
    requires Mapped(m, used + {frame}, m', used', spaces + {kdir}, d, q, x)
    requires Present(x) && FrameOf(x) == frame && !Present(Pte(m, d, q))
    ensures Accounted(m', spaces, kdir, base, used')
  {
    AccountedIs(m, spaces, kdir, base, used);
    var dirs, taken := spaces + {kdir}, used + {frame};
    TablesMore(m, dirs, kdir, used, taken);
    MappedOwned(m, taken, m', used', dirs, kdir, d, q, x);
    forall e | e in spaces && e != d ensures Owned(m', e) == Owned(m, e) {
      MappedOthers(m, taken, m', used', dirs, d, q, x, e);
    }
    var more := {frame} + (used' - taken);
    assert used + more == used';
    assert Owned(m', d) == Owned(m, d) + more;
    OwnerGrows(m, m', spaces, base, used, d, more);
  }

  /** Freeing the owned frames of one user directory leaves the rest of the structure and the
      accounts of all others as they were. */
  lemma FreedAccounted(m: Memory, spaces: set<nat>, kdir: nat, base: set<nat>, used: set<nat>, d: nat, left: set<nat>)
    requires Tables(m, spaces + {kdir}, kdir, used) && Accounted(m, spaces, kdir, base, used)
    requires d in spaces && d != kdir && left == used - Owned(m, d)
    ensures Accounted(m, spaces - {d}, kdir, base, left)
    ensures Tables(m, spaces - {d} + {kdir}, kdir, left)
  {
    AccountedIs(m, spaces, kdir, base, used);
    TablesAre(m, spaces + {kdir}, kdir, used);
    var rest := spaces - {d} + {kdir};
    forall e | e in rest ensures e !in Owned(m, d) {
      if e != kdir && e >= 512 {
        assert e in Owned(m, e);
      }
    }
    forall e, i | e in rest && 0 <= i < 1024 && TableOf(m, e, i) >= 0 ensures TableOf(m, e, i) !in Owned(m, d) {
      if i < 4 {
        assert TableOf(m, e, i) == TableOf(m, kdir, i);
      } else if e != kdir && TableOf(m, e, i) >= 512 {
        assert TableOf(m, e, i) in Owned(m, e);
      }
    }
  }

  // ---------------------------------------------------------------- what an unmap leaves behind

  /** Unmapping a page takes at most its frame from the directory. */
  lemma OwnsUnmapped(m: Memory, m': Memory, dirs: set<nat>, d: nat, q: nat, f: nat)
    requires (forall e :: e in dirs ==> e < 4096) && d in dirs && 4096 <= q < 0x10_0000
    requires WalksAs(m, m', dirs, d, q, 0)
    requires forall e, j :: e in dirs && 0 <= j < 1024 ==> TableOf(m', e, j) == TableOf(m, e, j)
    ensures Owns(m', d, f) ==> Owns(m, d, f)
    ensures Owns(m, d, f) && !Owns(m', d, f) ==> Maps(m, d, q, f)
  {
    if Owns(m', d, f) && f != d {
      if i :| 4 <= i < 1024 && TableOf(m', d, i) == f {
        assert TableOf(m, d, i) == f;
      } else {
        var p :| 4096 <= p < 0x10_0000 && Maps(m', d, p, f);
        assert Maps(m, d, p, f);
      }
    }
    if Owns(m, d, f) && f != d {
      if i :| 4 <= i < 1024 && TableOf(m, d, i) == f {
        assert TableOf(m', d, i) == f;
      } else {
        var p :| 4096 <= p < 0x10_0000 && Maps(m, d, p, f);
        assert p != q ==> Maps(m', d, p, f);
      }
    }
  }

  /** The frame of an unmapped page is not given back: it belongs to nobody's directory any more, and the
      accounts stand with it in the base. */
  lemma UnmappedAccounted(m: Memory, m': Memory, spaces: set<nat>, kdir: nat, base: set<nat>, used: set<nat>, d: nat, q: nat)
    requires Accounted(m, spaces, kdir, base, used) && d in spaces && d != kdir && 4096 <= q < 0x10_0000
    requires WalksAs(m, m', spaces + {kdir}, d, q, 0)
    requires forall e, j :: e in spaces + {kdir} && 0 <= j < 1024 ==> TableOf(m', e, j) == TableOf(m, e, j)
    ensures Accounted(m', spaces, kdir, base + (Owned(m, d) - Owned(m', d)), used)
    ensures Owned(m, d) - Owned(m', d) <= if Present(Pte(m, d, q)) then {FrameOf(Pte(m, d, q))} else {}
  {
    AccountedIs(m, spaces, kdir, base, used);
    var dirs := spaces + {kdir};
    forall f: nat ensures (Owns(m', d, f) ==> Owns(m, d, f)) && (Owns(m, d, f) && !Owns(m', d, f) ==> Maps(m, d, q, f)) {
      OwnsUnmapped(m, m', dirs, d, q, f);
    }
    forall e | e in spaces && e != d ensures Owned(m', e) == Owned(m, e) {
      OwnsSame(m, m', e);
    }
    OwnerShrinks(m, m', spaces, base, used, d);
  }

  lemma OwnerShrinks(m: Memory, m': Memory, spaces: set<nat>, base: set<nat>, used: set<nat>, d: nat)
    requires (forall e :: e in spaces ==> e < 4096) && OneOwner(m, spaces, base, used) && d in spaces
    requires Owned(m', d) <= Owned(m, d) && forall e :: e in spaces && e != d ==> Owned(m', e) == Owned(m, e)
    ensures OneOwner(m', spaces, base + (Owned(m, d) - Owned(m', d)), used)
  {
    forall f | f in used && f !in base + (Owned(m, d) - Owned(m', d)) ensures exists e :: e in spaces && f in Owned(m', e) {
      var e :| e in spaces && f in Owned(m, e);
      assert f in Owned(m', e);
    }
  }
}
