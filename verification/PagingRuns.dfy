/** Any number of user address spaces, created, filled page by page and freed in any order. */
module PagingRuns {
  import opened Words
  import opened Pmm
  import opened PageTables
  import opened PageOwnership
  import opened Paging

  /** Spaces are named by their place in the list of those that live. */
  datatype SpaceStep =
    | NewSpace
    | TouchPage(k: nat, addr: u32)
    | UnmapPage(k: nat, addr: u32)
    | FreeSpace(k: nat)

  /** `live` lists the directories of `spaces`, each once. */
  ghost predicate Lists(live: seq<nat>, spaces: set<nat>) {
    && (forall k :: 0 <= k < |live| ==> live[k] in spaces)
    && (forall j, k :: 0 <= j < k < |live| ==> live[j] != live[k])
    && (forall d :: d in spaces ==> d in live)
  }

  lemma ListsAdd(live: seq<nat>, spaces: set<nat>, d: nat)
    requires Lists(live, spaces) && d !in spaces
    ensures Lists(live + [d], spaces + {d})
  {
  }

  lemma ListsDrop(live: seq<nat>, spaces: set<nat>, k: nat)
    requires Lists(live, spaces) && k < |live|
    ensures Lists(live[..k] + live[k + 1..], spaces - {live[k]})
  {
  }

  /** Between steps the processor is in the kernel's directory. */
  ghost predicate Settled(a: AddressSpaces, live: seq<nat>)
    reads a, a.pmm, a.pmm.words
  {
    a.Balanced() && a.current == a.kernelDirectory && Lists(live, a.spaces)
  }

  method Create(a: AddressSpaces, live: seq<nat>) returns (live': seq<nat>)
    requires Settled(a, live)
    modifies a, a.pmm, a.pmm.words
    ensures Settled(a, live') && a.base == old(a.base)
  {
    var dir := a.CreateUserDirectory();
    live' := live;
    if dir != 0 {
      ListsAdd(live, old(a.spaces), dir / 4096);
      live' := live + [dir / 4096];
    }
  }

  method Drop(a: AddressSpaces, live: seq<nat>, k: nat) returns (live': seq<nat>)
    requires Settled(a, live) && k < |live|
    modifies a, a.pmm, a.pmm.words
    ensures Settled(a, live') && a.base == old(a.base) && |live'| == |live| - 1
  {
    ListsDrop(live, a.spaces, k);
    a.FreeDirectory(live[k] * 4096);
    live' := live[..k] + live[k + 1..];
  }

  /** What a step leaves behind: nothing, a frame taken for a page that could not be mapped, or the frame
      of a page that was unmapped. */
  datatype Trace = Nothing | Lost(frame: nat) | Unmapped(frame: nat)

  ghost function Behind(ts: seq<Trace>): set<nat> {
    set t | t in ts && !t.Nothing? :: t.frame
  }

  lemma BehindNext(ts: seq<Trace>, t: Trace)
    ensures Behind(ts + [t]) == Behind(ts) + (if t.Nothing? then {} else {t.frame})
  {
  }

  /** A page that is not present gets a frame; the frame is lost exactly when it was the last one and the
      page needs a table besides. */
  method Fill(a: AddressSpaces, live: seq<nat>, k: nat, addr: u32) returns (ok: bool, ghost t: Trace)
    requires Settled(a, live) && k < |live| && 4096 <= addr / 4096
    modifies a, a.pmm, a.pmm.words
    ensures Settled(a, live) && !t.Unmapped? && (ok <==> t.Nothing?)
    ensures t.Nothing? ==> a.base == old(a.base)
    ensures t.Lost? ==> t.frame !in old(a.pmm.Used()) && a.pmm.Used() == old(a.pmm.Used()) + {t.frame} && Full(a.pmm.Used())
                        && a.base == old(a.base) + {t.frame}
  {
    t := Nothing;
    var d := live[k];
    if Present(Pte(a.memory, d, addr / 4096)) {
      return true, t;
    }
    var frame := a.TakeAndMap(d, addr);
    ok := frame == 0 || Present(Pte(a.memory, d, addr / 4096));
    if !ok {
      t := Lost(FrameOf(frame));
    }
  }

  /** A page is unmapped in its space; its frame stays in use and joins the base. */
  method Unmap(a: AddressSpaces, live: seq<nat>, k: nat, addr: u32) returns (ok: bool, ghost t: Trace)
    requires Settled(a, live) && k < |live| && 4096 <= addr / 4096
    modifies a
    ensures Settled(a, live) && a.pmm.Used() == old(a.pmm.Used()) && !Present(Pte(a.memory, live[k], addr / 4096))
    ensures ok == !old(Present(Pte(a.memory, live[k], addr / 4096))) && !t.Lost? && (ok ==> t.Nothing?)
    ensures t.Nothing? ==> a.base == old(a.base)
    ensures t.Unmapped? ==> t.frame == old(FrameOf(Pte(a.memory, live[k], addr / 4096))) && a.base == old(a.base) + {t.frame}
  {
    var d := live[k];
    ghost var m, q, base := a.memory, addr / 4096, a.base;
    ok := !Present(Pte(a.memory, d, addr / 4096));
    a.SwitchDirectory(d);
    a.UnmapPage(addr);
    UnmappedAccounted(m, a.memory, a.spaces, a.kernelDirectory, a.base, a.pmm.Used(), d, q);
    ghost var left := Owned(m, d) - Owned(a.memory, d);
    t := if left == {} then Nothing else Unmapped(FrameOf(Pte(m, d, q)));
    assert left == if t.Nothing? then {} else {t.frame};
    a.base := a.base + left;
    a.SwitchDirectory(a.kernelDirectory);
  }

  /** One step of a run. */
  method Do(a: AddressSpaces, live: seq<nat>, step: SpaceStep) returns (live': seq<nat>, ok: bool, ghost t: Trace)
    requires Settled(a, live) && (step.TouchPage? || step.UnmapPage? ==> 4096 <= step.addr / 4096)
    modifies a, a.pmm, a.pmm.words
    ensures Settled(a, live') && (ok ==> t.Nothing?)
    ensures (t.Lost? ==> step.TouchPage?) && (t.Unmapped? ==> step.UnmapPage?)
    ensures a.base == old(a.base) + (if t.Nothing? then {} else {t.frame})
  {
    live', ok, t := live, true, Nothing;
    match step {
      case NewSpace => live' := Create(a, live);
      case TouchPage(k, addr) =>
        if k < |live| {
          ok, t := Fill(a, live, k, addr);
        }
      case UnmapPage(k, addr) =>
        if k < |live| {
          ok, t := Unmap(a, live, k, addr);
        }
      case FreeSpace(k) =>
        if k < |live| {
          live' := Drop(a, live, k);
        }
    }
  }

  /** Over every run, whatever the interleaving: each frame in use belongs to the base or to exactly one
      living space, and the base has grown by exactly the frames that steps of the run lost or unmapped.
      Once all spaces are freed those are all that is in use more than before; without any, the page
      allocator is exactly as it was. */
  method Run(a: AddressSpaces, steps: seq<SpaceStep>) returns (live: seq<nat>, ok: bool, ghost ts: seq<Trace>)
    requires a.Balanced() && a.current == a.kernelDirectory && a.spaces == {}
    requires forall i :: 0 <= i < |steps| && (steps[i].TouchPage? || steps[i].UnmapPage?) ==> 4096 <= steps[i].addr / 4096
    modifies a, a.pmm, a.pmm.words
    ensures Settled(a, live) && |ts| == |steps| && (ok ==> Behind(ts) == {})
    ensures forall i :: 0 <= i < |steps| ==> (ts[i].Lost? ==> steps[i].TouchPage?) && (ts[i].Unmapped? ==> steps[i].UnmapPage?)
    ensures a.base == old(a.base) + Behind(ts)
    ensures live == [] ==> a.pmm.Used() == old(a.pmm.Used()) + Behind(ts)
    ensures live == [] && ok ==> a.pmm.usedPages == old(a.pmm.usedPages) && a.pmm.words[..] == old(a.pmm.words[..])
  {
    a.pmm.TiedIs();
    live, ok, ts := [], true, [];
    assert Behind([]) == {};
    var i := 0;
    while i < |steps|
      invariant i <= |steps| && Settled(a, live) && |ts| == i && (ok ==> Behind(ts) == {})
      invariant forall j :: 0 <= j < i ==> (ts[j].Lost? ==> steps[j].TouchPage?) && (ts[j].Unmapped? ==> steps[j].UnmapPage?)
      invariant a.base == old(a.base) + Behind(ts)
    {
      var done;
      ghost var t;
      live, done, t := Do(a, live, steps[i]);
      BehindNext(ts, t);
      ok, ts := ok && done, ts + [t];
      i := i + 1;
    }
    if live == [] {
      Emptied(old(a.memory), a.memory, a.spaces, a.kernelDirectory, old(a.base), a.base, old(a.pmm.Used()), a.pmm.Used());
      a.pmm.TiedIs();
      if ok {
        UsedDetermines(a.pmm.words[..], old(a.pmm.words[..]));
      }
    }
  }

  lemma Emptied(m: Memory, m': Memory, spaces: set<nat>, kdir: nat, base: set<nat>, base': set<nat>, used: set<nat>, used': set<nat>)
    requires Accounted(m, {}, kdir, base, used) && Accounted(m', spaces, kdir, base', used') && Lists([], spaces)
    ensures used == base && used' == base'
  {
    assert spaces == {};
    NoSpaces(m, kdir, base, used);
    NoSpaces(m', kdir, base', used');
  }
}
