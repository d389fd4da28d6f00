/** Consequences of the volume invariant: the cached directory can always be re-read from its
    blocks, numbers stay small because allocation is first-fit, and space never runs out. */
module VolumeBounds {
  import opened Words
  import opened Layout
  import opened Volumes

  // ---------------------------------------------------------------- the directory is on the disk

  lemma RootPointersDistinct(v: Volume)
    requires InodesGood(v) && BlocksOwned(v)
    ensures DistinctRoot(v.inodes[0].blocks)
  {
    var c := v.inodes[0].blocks;
    forall i, j | 0 <= i < j < 10 && c[i] != 0 ensures c[i] != c[j] {
      assert Live(v, 0);
      assert Owns(v, 0, i, c[i]) && Owns(v, 0, j, c[j]);
    }
  }

  lemma GrowRereads(v: Volume, n: nat, k: nat, b: nat)
    requires InodesGood(v) && BlocksOwned(v) && DirRead(v)
    requires Live(v, n) && k < DIRECT && 0 < b < MAX_DATA && !v.dbits[b] && v.inodes[n].blocks[k] == 0
    ensures DirRead(Grow(v, n, k, b))
  {
    DirReadSlots(v);
    DirReadSlots(Grow(v, n, k, b));
    var c := v.inodes[0].blocks;
    forall j | 0 <= j < 10 ensures c[j] != b {
      assert Live(v, 0);
      assert !Owns(v, 0, j, b);
    }
    if n == 0 {
      SlotsAfterGrow(c, v.data, k, b);
    } else {
      SlotsAfterOther(c, v.data, b, ZERO_BLOCK);
    }
  }

  lemma EnterRereads(v: Volume, s: nat, n: u32, name: Name, now: u32)
    requires InodesGood(v) && BlocksOwned(v) && DirRead(v)
    requires s < ROOT_SLOTS && 0 < v.inodes[0].blocks[s / 16] < MAX_DATA && n != 0 && 0 !in name
    ensures DirRead(Enter(v, s, n, name, now))
  {
    DirReadSlots(v);
    DirReadSlots(Enter(v, s, n, name, now));
    RootPointersDistinct(v);
    SlotsAfterPut(v.inodes[0].blocks, v.data, s, n, name);
  }

  lemma LeaveRereads(v: Volume, s: nat, now: u32)
    requires InodesGood(v) && BlocksOwned(v) && DirRead(v)
    requires s < ROOT_SLOTS && 0 < v.inodes[0].blocks[s / 16] < MAX_DATA
    ensures DirRead(Leave(v, s, now))
  {
    DirReadSlots(v);
    DirReadSlots(Leave(v, s, now));
    RootPointersDistinct(v);
    SlotsAfterClear(v.inodes[0].blocks, v.data, s);
  }

  lemma StoreRereads(v: Volume, n: nat, pos: nat, chunk: seq<byte>)
    requires InodesGood(v) && BlocksOwned(v) && DirRead(v) && Live(v, n) && n != 0 && pos < MAX_FILE_SIZE
    requires 0 < v.inodes[n].blocks[pos / 512] < MAX_DATA && pos % 512 + |chunk| <= 512
    ensures DirRead(Store(v, n, pos, chunk))
  {
    DirReadSlots(v);
    DirReadSlots(Store(v, n, pos, chunk));
    var p := v.inodes[n].blocks[pos / 512];
    assert Owns(v, n, pos / 512, p);
    forall j | 0 <= j < 10 ensures v.inodes[0].blocks[j] != p {
      assert Live(v, 0);
      assert !Owns(v, 0, j, p);
    }
    SlotsAfterOther(v.inodes[0].blocks, v.data, p, Patch(v.data[p], pos % 512, chunk));
  }

  /** What the sixteen slots of a directory block say is what the block says. */
  lemma BlockSlots(v: Volume, k: nat, i: nat)
    requires DirRead(v) && k < DIRECT && i < 16 && 0 < v.inodes[0].blocks[k] < MAX_DATA
    ensures EntryInode(v.data[v.inodes[0].blocks[k]], i) == v.dir[16 * k + i].inode
    ensures v.dir[16 * k + i].inode != 0 ==> EntryName(v.data[v.inodes[0].blocks[k]], i) == v.dir[16 * k + i].name
  {
    DirReadSlots(v);
    assert (16 * k + i) / 16 == k && (16 * k + i) % 16 == i;
  }

  // ---------------------------------------------------------------- lookup by name

  ghost function Lookup(v: Volume, name: Name): (r: int) {
    if name in Names(v) then v.dir[SlotNamed(v, name)].inode else -1
  }

  ghost predicate Matches(x: Slot, name: Name) {
    x.inode != 0 && x.name == name
  }

  lemma LookupFound(v: Volume, name: Name, s: nat)
    requires SlotsGood(v) && s < ROOT_SLOTS && Matches(v.dir[s], name)
    ensures name in Names(v) && Lookup(v, name) == v.dir[s].inode && SlotNamed(v, name) == s
  {
    assert s in UsedSlots(v);
    assert name in Names(v);
  }

  lemma LookupMissing(v: Volume, name: Name)
    requires forall s :: 0 <= s < ROOT_SLOTS ==> !Matches(v.dir[s], name)
    ensures name !in Names(v)
  {
  }

  ghost predicate NoMatchBelow(v: Volume, name: Name, n: nat)
    requires n <= ROOT_SLOTS
  {
    forall s :: 0 <= s < n ==> !Matches(v.dir[s], name)
  }

  /** Entry `i` of a directory block is a used entry of this name. */
  predicate EntryMatches(data: Block, i: nat, name: Name)
    requires i < ENTRIES_PER_BLOCK
  {
    EntryInode(data, i) != 0 && EntryName(data, i) == name
  }

  lemma BlockScanned(v: Volume, name: Name, k: nat, n: nat)
    requires DirRead(v) && k < DIRECT && 0 < v.inodes[0].blocks[k] < MAX_DATA && NoMatchBelow(v, name, 16 * k) && n <= 16
    requires forall i :: 0 <= i < n ==> !EntryMatches(v.data[v.inodes[0].blocks[k]], i, name)
    ensures NoMatchBelow(v, name, 16 * k + n)
  {
    forall s | 16 * k <= s < 16 * k + n ensures !Matches(v.dir[s], name) {
      BlockSlots(v, k, s - 16 * k);
      assert !EntryMatches(v.data[v.inodes[0].blocks[k]], s - 16 * k, name);
    }
  }

  lemma BlockFound(v: Volume, name: Name, k: nat, i: nat)
    requires DirRead(v) && SlotsGood(v) && k < DIRECT && i < 16 && 0 < v.inodes[0].blocks[k] < MAX_DATA
    requires EntryMatches(v.data[v.inodes[0].blocks[k]], i, name)
    ensures name in Names(v) && SlotNamed(v, name) == 16 * k + i
    ensures Lookup(v, name) == EntryInode(v.data[v.inodes[0].blocks[k]], i)
  {
    BlockSlots(v, k, i);
    LookupFound(v, name, 16 * k + i);
  }

  /** A scan that stopped at a null root pointer has seen every used slot. */
  lemma LookupExhausted(v: Volume, name: Name, k: nat)
    requires InodesGood(v) && SlotsGood(v) && k <= DIRECT && (k == DIRECT || v.inodes[0].blocks[k] == 0)
    requires NoMatchBelow(v, name, 16 * k)
    ensures name !in Names(v)
  {
    assert Live(v, 0) && GoodInode(v.inodes[0]);
    LookupMissing(v, name);
  }

  // ---------------------------------------------------------------- counting

  /** The positions of the set bits. */
  ghost function Ones(bits: seq<bool>): (r: set<nat>)
    ensures forall n :: n in r <==> 0 <= n < |bits| && bits[n]
  {
    set n: nat | 0 <= n < |bits| && bits[n]
  }

  ghost function ZeroBits(bits: seq<bool>): (r: set<nat>)
    ensures forall n :: n in r <==> 0 <= n < |bits| && !bits[n]
  {
    set n: nat | 0 <= n < |bits| && !bits[n]
  }

  /** The number of clear bits. */
  ghost function Zeros(bits: seq<bool>): (r: nat) {
    |ZeroBits(bits)|
  }

  ghost function LiveInodes(v: Volume): (r: set<nat>) {
    Ones(v.ibits)
  }

  ghost function UsedBlocks(v: Volume): (r: set<nat>) {
    Ones(v.dbits)
  }

  lemma ZerosBound(bits: seq<bool>)
    ensures Zeros(bits) <= |bits|
  {
    AtMost(ZeroBits(bits), |bits|);
  }

  /** Changing one bit changes the number of clear bits by one. */
  lemma FlipBit(bits: seq<bool>, n: nat, on: bool)
    requires n < |bits| && bits[n] != on
    ensures Zeros(bits[n := on]) == Zeros(bits) + (if on then -1 else 1)
  {
    if on {
      assert ZeroBits(bits[n := on]) == ZeroBits(bits) - {n};
    } else {
      assert ZeroBits(bits[n := on]) == ZeroBits(bits) + {n};
    }
  }

  /** 162 inodes at most: the root, one for each of 160 slots, and those being created. */
  lemma InodeCount(v: Volume, pending: set<nat>)
    requires Consistent(v, pending)
    ensures |LiveInodes(v)| <= 1 + |UsedSlots(v)| + |pending| <= 161 + |pending|
  {
    assert Unfold(OfConsistent, 0);
    UsedSlotsBound(v);
    var listed := LiveInodes(v) - {0} - pending;
    var f := map s | s in UsedSlots(v) :: v.dir[s].inode as nat;
    forall n | n in listed ensures exists s :: s in UsedSlots(v) && f[s] == n {
      assert Live(v, n);
      assert Listed(v, n);
      var s :| s in UsedSlots(v) && v.dir[s].inode == n;
      assert f[s] == n;
    }
    ImageSize(UsedSlots(v), listed, f);
    SubsetSize(LiveInodes(v), listed + {0} + pending);
  }

  /** Allocated blocks that one of the first `k` pointers of a live inode names. */
  ghost function PointedAt(v: Volume, k: nat): (r: set<nat>)
    requires k <= DIRECT
  {
    set b | b in UsedBlocks(v) && exists n: nat, i: nat :: Owns(v, n, i, b) && i < k
  }

  lemma PointedAtStep(v: Volume, k: nat)
    requires InodesGood(v) && 0 < k <= DIRECT
    ensures |PointedAt(v, k)| <= |PointedAt(v, k - 1)| + |LiveInodes(v)|
  {
    var f := map n | n in LiveInodes(v) :: v.inodes[n].blocks[k - 1] as nat;
    var last := PointedAt(v, k) - PointedAt(v, k - 1);
    forall b | b in last ensures exists n :: n in LiveInodes(v) && f[n] == b {
      var n: nat, i: nat :| Owns(v, n, i, b) && i < k;
      assert n in LiveInodes(v) && f[n] == b;
    }
    ImageSize(LiveInodes(v), last, f);
    SubsetSize(PointedAt(v, k), PointedAt(v, k - 1) + last);
  }

  lemma {:induction false} PointedAtCount(v: Volume, k: nat)
    requires InodesGood(v) && k <= DIRECT
    ensures |PointedAt(v, k)| <= k * |LiveInodes(v)|
  {
    if k == 0 {
      assert PointedAt(v, 0) == {};
    } else {
      PointedAtCount(v, k - 1);
      PointedAtStep(v, k);
      assert k * |LiveInodes(v)| == (k - 1) * |LiveInodes(v)| + |LiveInodes(v)|;
    }
  }

  /** Ten blocks at most for each live inode, and block 0. */
  lemma BlockCount(v: Volume)
    requires InodesGood(v) && BlocksOwned(v)
    ensures |UsedBlocks(v)| <= 1 + 10 * |LiveInodes(v)|
  {
    PointedAtCount(v, 10);
    forall b | b in UsedBlocks(v) - {0} ensures b in PointedAt(v, 10) {
      var n: nat, i: nat :| Owns(v, n, i, b);
    }
    SubsetSize(UsedBlocks(v) - {0}, PointedAt(v, 10));
  }

  /** A first-fit inode number is no larger than the number of live inodes. */
  lemma FirstFreeInode(v: Volume, pending: set<nat>, n: nat)
    requires Consistent(v, pending) && n <= MAX_INODES
    requires forall m :: 0 <= m < n ==> v.ibits[m]
    ensures n <= 1 + |UsedSlots(v)| + |pending|
  {
    InodeCount(v, pending);
    AtLeast(LiveInodes(v), n);
  }

  /** With at most one inode being created there is always a free inode and a free block. */
  lemma RoomLeft(v: Volume, pending: set<nat>)
    requires Consistent(v, pending) && |pending| <= 1
    ensures exists n :: 0 <= n < TABLE_INODES && !v.ibits[n]
    ensures exists b :: 0 < b < MAX_DATA && !v.dbits[b]
  {
    assert Unfold(OfConsistent, 0);
    InodeCount(v, pending);
    BlockCount(v);
    if forall n :: 0 <= n < TABLE_INODES ==> v.ibits[n] {
      AtLeast(LiveInodes(v), TABLE_INODES);
    }
    if forall b :: 0 < b < MAX_DATA ==> v.dbits[b] {
      AtLeast(UsedBlocks(v), MAX_DATA);
    }
  }

  /** The steady-state space bounds. */
  lemma SpaceBounds(v: Volume)
    requires Consistent(v, {})
    ensures |LiveInodes(v)| <= 161
    ensures |UsedBlocks(v)| <= 1611
  {
    assert Unfold(OfConsistent, 0);
    InodeCount(v, {});
    BlockCount(v);
  }

  /** Storing a name is sound exactly when its stored form is new: a name cut to 27 characters may
      collide with an existing one, and the volume then has two entries of that name. */
  lemma EnterSoundIff(v: Volume, s: nat, n: u32, name: Name, now: u32)
    requires Consistent(v, {n}) && s < ROOT_SLOTS && v.dir[s].inode == 0
    requires v.inodes[0].blocks[s / 16] != 0 && name != []
    ensures v.inodes[0].blocks[s / 16] < MAX_DATA
    ensures Consistent(Enter(v, s, n, name, now), {}) <==> Stored(name) !in Names(v)
  {
    assert Unfold(OfConsistent, 0);
    RootShape(v, {n});
    if Stored(name) !in Names(v) {
      EnterKeeps(v, {n}, s, n, name, now);
      assert {n} - {n} == {};
    } else {
      var t := SlotNamed(v, Stored(name));
      var w := Enter(v, s, n, name, now);
      assert s in UsedSlots(w) && t in UsedSlots(w) && s != t;
      assert w.dir[s].name == w.dir[t].name;
      assert !SlotsGood(w);
    }
  }

  // ---------------------------------------------------------------- from block writes to elementary changes

  /** Growing the root when every slot of its blocks is used. */
  lemma GrowRoot(v: Volume, n: nat, k: nat, b: nat)
    requires Consistent(v, {n}) && DirRead(v) && k < DIRECT && b < MAX_DATA && !v.dbits[b]
    requires v.inodes[0].blocks[k] == 0 && forall s :: 0 <= s < 16 * k ==> v.dir[s].inode != 0
    ensures Consistent(Grow(v, 0, k, b), {n}) && DirRead(Grow(v, 0, k, b)) && b != 0
    ensures Files(Grow(v, 0, k, b)) == Files(v) && FileAt(Grow(v, 0, k, b), n) == FileAt(v, n)
    ensures Names(Grow(v, 0, k, b)) == Names(v)
  {
    ConsistentParts(v, {n});
    assert Live(v, 0) && Live(v, n);
    if k > 0 {
      assert 16 * (k - 1) in UsedSlots(v);
      assert (16 * (k - 1)) / 16 == k - 1;
    }
    GrowKeeps(v, {n}, 0, k, b);
    GrowRereads(v, 0, k, b);
  }

  /** Volumes that differ in nothing but what lies behind one block and one inode. */
  ghost predicate SameBut(v: Volume, g: Volume, p: nat, n: nat)
    requires p < MAX_DATA && n < TABLE_INODES
  {
    && v.ibits == g.ibits && v.dbits == g.dbits
    && v.data[p := ZERO_BLOCK] == g.data[p := ZERO_BLOCK]
    && v.inodes[n := EMPTY_INODE] == g.inodes[n := EMPTY_INODE]
  }

  lemma UpdateTwice<T>(a: seq<T>, i: nat, x: T, y: T)
    requires i < |a|
    ensures a[i := x][i := y] == a[i := y]
  {
  }

  lemma UpdateBoth<T>(a: seq<T>, b: seq<T>, i: nat, x: T, y: T)
    requires i < |a| && i < |b| && a[i := x] == b[i := x]
    ensures a[i := y] == b[i := y]
  {
    assert a[i := y] == a[i := x][i := y];
    assert b[i := y] == b[i := x][i := y];
  }

  /** The two block writes of `dir_add_entry` amount to `Enter`. */
  lemma EnterWrites(v: Volume, g: Volume, k: nat, i: nat, n: u32, name: Name, now: u32)
    requires Consistent(g, {n}) && DirRead(g) && k < DIRECT && i < 16
    requires 0 < g.inodes[0].blocks[k] < MAX_DATA && n != 0 && 0 !in name
    requires SameBut(v, g, g.inodes[0].blocks[k], 0)
    ensures var p, root := g.inodes[0].blocks[k], g.inodes[0];
            var x := Reread(v.(data := v.data[p := PutEntry(g.data[p], i, n, name)]));
            Reread(x.(inodes := x.inodes[0 := root.(size := Add32(root.size, 32), modified := now)]))
              == Enter(g, 16 * k + i, n, name, now)
  {
    ConsistentParts(g, {n});
    var p := g.inodes[0].blocks[k];
    assert (16 * k + i) / 16 == k && (16 * k + i) % 16 == i;
    EnterRereads(g, 16 * k + i, n, name, now);
    DirReadSlots(Enter(g, 16 * k + i, n, name, now));
    UpdateBoth(v.data, g.data, p, ZERO_BLOCK, PutEntry(g.data[p], i, n, name));
    var root := g.inodes[0];
    UpdateBoth(v.inodes, g.inodes, 0, EMPTY_INODE, root.(size := Add32(root.size, 32), modified := now));
  }

  /** The two block writes of `dir_remove_entry` amount to `Leave`, on any bit maps. */
  lemma LeaveWrites(v: Volume, g: Volume, k: nat, i: nat, now: u32)
    requires Consistent(g, {}) && DirRead(g) && k < DIRECT && i < 16
    requires 0 < g.inodes[0].blocks[k] < MAX_DATA
    requires v.data == g.data && v.inodes == g.inodes
    ensures var p, root := g.inodes[0].blocks[k], g.inodes[0];
            var x := Reread(v.(data := v.data[p := ClearEntry(g.data[p], i)]));
            Reread(x.(inodes := x.inodes[0 := root.(size := Add32(root.size, 0xFFFF_FFE0), modified := now)]))
              == Leave(g, 16 * k + i, now).(ibits := v.ibits, dbits := v.dbits)
  {
    ConsistentParts(g, {});
    assert (16 * k + i) / 16 == k && (16 * k + i) % 16 == i;
    LeaveRereads(g, 16 * k + i, now);
    DirReadSlots(Leave(g, 16 * k + i, now));
  }

  /** Slots behind a null root pointer are unused. */
  lemma UnbackedSlots(v: Volume, n: nat, k: nat)
    requires Consistent(v, {n}) && k < DIRECT && v.inodes[0].blocks[k] == 0
    ensures v.dir[16 * k].inode == 0
  {
    ConsistentParts(v, {n});
    assert (16 * k) / 16 == k;
  }

  /** The result of the scan for an unused entry, in terms of slots. */
  lemma BlockUnused(v: Volume, k: nat, r: int)
    requires DirRead(v) && k < DIRECT && 0 < v.inodes[0].blocks[k] < MAX_DATA && -1 <= r < 16
    requires forall i :: 0 <= i < (if r == -1 then 16 else r) ==> EntryInode(v.data[v.inodes[0].blocks[k]], i) != 0
    requires r >= 0 ==> EntryInode(v.data[v.inodes[0].blocks[k]], r) == 0
    ensures r >= 0 ==> v.dir[16 * k + r].inode == 0
    ensures r == -1 ==> forall s :: 16 * k <= s < 16 * k + 16 ==> v.dir[s].inode != 0
  {
    if r >= 0 {
      BlockSlots(v, k, r);
    } else {
      forall s | 16 * k <= s < 16 * k + 16 ensures v.dir[s].inode != 0 {
        BlockSlots(v, k, s - 16 * k);
      }
    }
  }

  /** One clear bit was set. */
  ghost predicate Takes(a: seq<bool>, b: seq<bool>) {
    exists k :: 0 <= k < |a| && !a[k] && b == a[k := true]
  }

  /** `w` is `v` with an entry for inode `n` in a slot that was unused; and if the stored name
      is new, `w` is consistent and represents one file more. At most one block was taken. Folded. */
  ghost predicate Added(v: Volume, w: Volume, n: u32, name: Name) {
    forall k {:trigger Unfold(OfAdded, k)} :: Unfold(OfAdded, k) ==> AddedParts(v, w, n, name)
  }

  ghost predicate AddedParts(v: Volume, w: Volume, n: u32, name: Name) {
    && w.ibits == v.ibits && w.inodes[1..] == v.inodes[1..] && (w.dbits == v.dbits || Takes(v.dbits, w.dbits))
    && (exists s :: 0 <= s < ROOT_SLOTS && v.dir[s].inode == 0 && w.dir == v.dir[s := Slot(n, Stored(name))])
    && (Stored(name) !in Names(v) ==> Consistent(w, {}) && Files(w) == Files(v)[Stored(name) := FileAt(v, n)])
  }

  /** What entering a name does, seen from before the root was grown. */
  lemma EntryDone(v: Volume, g: Volume, s: nat, n: u32, name: Name, now: u32)
    requires Consistent(g, {n}) && s < ROOT_SLOTS && 0 < g.inodes[0].blocks[s / 16] < MAX_DATA && name != []
    requires g.dir == v.dir && g.ibits == v.ibits && g.inodes[1..] == v.inodes[1..] && v.dir[s].inode == 0
    requires Files(g) == Files(v) && FileAt(g, n) == FileAt(v, n) && (g.dbits == v.dbits || Takes(v.dbits, g.dbits))
    ensures |UsedSlots(v)| != ROOT_SLOTS
    ensures Added(v, Enter(g, s, n, name, now), n, name)
  {
    UsedSlotsBound(v);
    var w := Enter(g, s, n, name, now);
    assert w.inodes[1..] == g.inodes[1..];
    assert UsedSlots(g) == UsedSlots(v);
    assert Names(g) == Names(v);
    if Stored(name) !in Names(v) {
      EnterKeeps(g, {n}, s, n, name, now);
      assert {n} - {n} == {};
    }
  }
}
