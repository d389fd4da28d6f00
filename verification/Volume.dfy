/** The invariant of a WitFS volume, the map from names to bytes that it represents, and the
    six elementary changes out of which every public operation is made. */
module Volumes {
  import opened Words
  import opened Layout

  type Name = seq<byte>

  // ---------------------------------------------------------------- reading a volume

  predicate Live(v: Volume, n: nat) {
    n < TABLE_INODES && v.ibits[n]
  }

  /** Slot `i` of live inode `n` points at data block `b`. */
  predicate Owns(v: Volume, n: nat, i: nat, b: nat) {
    Live(v, n) && i < DIRECT && v.inodes[n].blocks[i] == b
  }

  ghost function UsedSlots(v: Volume): (r: set<nat>)
    ensures forall s :: s in r <==> 0 <= s < ROOT_SLOTS && v.dir[s].inode != 0
  {
    set s: nat | 0 <= s < ROOT_SLOTS && v.dir[s].inode != 0
  }

  ghost function Names(v: Volume): (r: set<Name>) {
    set s | s in UsedSlots(v) :: v.dir[s].name
  }

  function ByteOf(v: Volume, i: Inode, k: nat): (b: byte) {
    if k / 512 < DIRECT && i.blocks[k / 512] < MAX_DATA then v.data[i.blocks[k / 512]][k % 512] else 0
  }

  /** The bytes of a file: its blocks in pointer order, cut at its size. */
  function Contents(v: Volume, i: Inode): (r: seq<byte>)
    ensures |r| == i.size
    ensures forall k :: 0 <= k < i.size ==> r[k] == ByteOf(v, i, k)
  {
    seq(i.size, k requires 0 <= k < i.size => ByteOf(v, i, k))
  }

  function FileAt(v: Volume, n: nat): (r: seq<byte>) {
    if Live(v, n) then Contents(v, v.inodes[n]) else []
  }

  ghost function SlotNamed(v: Volume, name: Name): (s: nat)
    requires name in Names(v)
    ensures s in UsedSlots(v) && v.dir[s].name == name
  {
    var s :| s in UsedSlots(v) && v.dir[s].name == name;
    s
  }

  // ---------------------------------------------------------------- the invariant

  /** Nonzero pointers come first, are in range, and cover the size. */
  ghost predicate GoodInode(i: Inode) {
    && (forall k :: 0 <= k < DIRECT ==> i.blocks[k] < MAX_DATA)
    && (forall j, k :: 0 <= j < k < DIRECT && i.blocks[k] != 0 ==> i.blocks[j] != 0)
    && i.size <= MAX_FILE_SIZE
    && (forall k :: 0 <= k < DIRECT && 512 * k < i.size ==> i.blocks[k] != 0)
  }

  ghost predicate InodesGood(v: Volume) {
    && v.ibits[0] && v.dbits[0]
    && BitOf(v.inodes[0].mode, 1)
    && (forall n: nat :: 0 <= n < MAX_INODES && v.ibits[n] ==> n < TABLE_INODES)
    && (forall n: nat {:trigger GoodInode(v.inodes[n])} :: Live(v, n) ==> GoodInode(v.inodes[n]))
  }

  /** Data blocks other than 0 are allocated exactly when one slot of one live inode points at them. */
  ghost predicate BlocksOwned(v: Volume) {
    && (forall n, i, b: nat :: Owns(v, n, i, b) && b != 0 ==> b < MAX_DATA && v.dbits[b])
    && (forall n, i, m, j, b: nat :: Owns(v, n, i, b) && Owns(v, m, j, b) && b != 0 ==> n == m && i == j)
    && (forall b :: 0 < b < MAX_DATA && v.dbits[b] ==> exists n, i :: Owns(v, n, i, b))
  }

  /** Root entries name distinct live inodes by distinct names. */
  ghost predicate SlotsGood(v: Volume) {
    && (forall s :: s in UsedSlots(v) ==> Live(v, v.dir[s].inode) && 1 <= |v.dir[s].name| <= MAX_FILENAME)
    && (forall s :: s in UsedSlots(v) ==> v.inodes[0].blocks[s / 16] != 0)
    && (forall s, t :: s in UsedSlots(v) && t in UsedSlots(v) && s != t ==>
          v.dir[s].inode != v.dir[t].inode && v.dir[s].name != v.dir[t].name)
  }

  ghost predicate Listed(v: Volume, n: nat) {
    exists s :: s in UsedSlots(v) && v.dir[s].inode == n
  }

  /** Every live inode other than the root has an entry, except those in `pending`, which have none. */
  ghost predicate Directory(v: Volume, pending: set<nat>) {
    && SlotsGood(v)
    && (forall n :: n in pending ==> n != 0 && Live(v, n) && !Listed(v, n))
    && (forall n: nat {:trigger Listed(v, n)} :: Live(v, n) && n != 0 && n !in pending ==> Listed(v, n))
    && v.inodes[0].size == 32 * |UsedSlots(v)|
  }

  /** The whole invariant, folded so that callers carry it as one fact. */
  ghost predicate Consistent(v: Volume, pending: set<nat>) {
    forall k {:trigger Unfold(OfConsistent, k)} :: Unfold(OfConsistent, k) ==> InodesGood(v) && BlocksOwned(v) && Directory(v, pending)
  }

  lemma ConsistentParts(v: Volume, pending: set<nat>)
    ensures Consistent(v, pending) <==> InodesGood(v) && BlocksOwned(v) && Directory(v, pending)
  {
    assert Unfold(OfConsistent, 0);
  }

  // ---------------------------------------------------------------- the file map

  ghost function Files(v: Volume): (r: map<Name, seq<byte>>)
    ensures r.Keys == Names(v)
  {
    map name | name in Names(v) :: FileAt(v, v.dir[SlotNamed(v, name)].inode)
  }

  lemma FilesAt(v: Volume, s: nat)
    requires SlotsGood(v) && s in UsedSlots(v)
    ensures v.dir[s].name in Files(v)
    ensures Files(v)[v.dir[s].name] == FileAt(v, v.dir[s].inode)
  {
  }

  /** The map is determined by what the used slots say. */
  lemma FilesAre(v: Volume, m: map<Name, seq<byte>>)
    requires SlotsGood(v)
    requires forall s :: s in UsedSlots(v) ==> v.dir[s].name in m && m[v.dir[s].name] == FileAt(v, v.dir[s].inode)
    requires forall name :: name in m ==> exists s :: s in UsedSlots(v) && v.dir[s].name == name
    ensures Files(v) == m
  {
  }

  /** Same directory and same contents give the same map. */
  lemma FilesSame(v: Volume, w: Volume)
    requires SlotsGood(v) && SlotsGood(w) && v.dir == w.dir
    requires forall s :: s in UsedSlots(v) ==> FileAt(v, v.dir[s].inode) == FileAt(w, v.dir[s].inode)
    ensures Files(w) == Files(v)
  {
    assert UsedSlots(v) == UsedSlots(w);
    forall s | s in UsedSlots(w)
      ensures w.dir[s].name in Files(v) && Files(v)[w.dir[s].name] == FileAt(w, w.dir[s].inode)
    {
      FilesAt(v, s);
    }
    forall name | name in Files(v) ensures exists s :: s in UsedSlots(w) && w.dir[s].name == name {
      var s := SlotNamed(v, name);
      assert s in UsedSlots(w) && w.dir[s].name == name;
    }
    FilesAre(w, Files(v));
  }

  // ---------------------------------------------------------------- change 1: a new inode

  ghost predicate Fresh(i: Inode) {
    i.size == 0 && forall k :: 0 <= k < DIRECT ==> i.blocks[k] == 0
  }

  function NewInode(v: Volume, n: nat, i: Inode): (w: Volume)
    requires n < TABLE_INODES
  {
    v.(ibits := v.ibits[n := true], inodes := v.inodes[n := i])
  }

  lemma NewInodeKeepsBlocks(v: Volume, n: nat, i: Inode)
    requires InodesGood(v) && BlocksOwned(v) && n < TABLE_INODES && !v.ibits[n] && Fresh(i)
    ensures InodesGood(NewInode(v, n, i)) && BlocksOwned(NewInode(v, n, i))
  {
    var w := NewInode(v, n, i);
    assert forall m: nat :: Live(w, m) <==> m == n || Live(v, m);
    assert forall m, k, b: nat :: b != 0 ==> (Owns(w, m, k, b) <==> Owns(v, m, k, b));
    assert GoodInode(i);
    forall c | 0 < c < MAX_DATA && w.dbits[c] ensures exists m, j :: Owns(w, m, j, c) {
      var m: nat, j: nat :| Owns(v, m, j, c);
      assert Owns(w, m, j, c);
    }
  }

  lemma NewInodeKeeps(v: Volume, pending: set<nat>, n: nat, i: Inode)
    requires Consistent(v, pending) && n < TABLE_INODES && !v.ibits[n] && Fresh(i)
    ensures Consistent(NewInode(v, n, i), pending + {n})
    ensures Files(NewInode(v, n, i)) == Files(v)
  {
    assert Unfold(OfConsistent, 0);
    var w := NewInode(v, n, i);
    NewInodeKeepsBlocks(v, n, i);
    assert forall m: nat :: Live(w, m) <==> m == n || Live(v, m);
    assert UsedSlots(w) == UsedSlots(v);
    assert forall m: nat :: Listed(w, m) <==> Listed(v, m);
    assert !Listed(v, n);
    FilesSame(v, w);
  }

  // ---------------------------------------------------------------- change 2: a block joins an inode

  function Grow(v: Volume, n: nat, k: nat, b: nat): (w: Volume)
    requires n < TABLE_INODES && k < DIRECT && b < MAX_DATA
  {
    var i := v.inodes[n];
    v.(dbits := v.dbits[b := true], data := v.data[b := ZERO_BLOCK], inodes := v.inodes[n := i.(blocks := i.blocks[k := b])])
  }

  lemma GrowKeepsBlocks(v: Volume, n: nat, k: nat, b: nat)
    requires InodesGood(v) && BlocksOwned(v) && Live(v, n) && k < DIRECT && 0 < b < MAX_DATA && !v.dbits[b]
    requires v.inodes[n].blocks[k] == 0 && (k == 0 || v.inodes[n].blocks[k - 1] != 0)
    ensures InodesGood(Grow(v, n, k, b)) && BlocksOwned(Grow(v, n, k, b))
  {
    var w := Grow(v, n, k, b);
    assert forall m: nat :: Live(w, m) <==> Live(v, m);
    assert GoodInode(v.inodes[n]);
    assert GoodInode(w.inodes[n]);
    assert forall m, j, c: nat :: c != 0 && c != b ==> (Owns(w, m, j, c) <==> Owns(v, m, j, c));
    forall m: nat, j: nat | Owns(w, m, j, b) ensures m == n && j == k {
      assert !Owns(v, m, j, b);
    }
    assert Owns(w, n, k, b);
    forall c | 0 < c < MAX_DATA && w.dbits[c] ensures exists m, j :: Owns(w, m, j, c) {
      if c != b {
        var m: nat, j: nat :| Owns(v, m, j, c);
        assert Owns(w, m, j, c);
      }
    }
  }

  lemma GrowKeeps(v: Volume, pending: set<nat>, n: nat, k: nat, b: nat)
    requires Consistent(v, pending) && Live(v, n) && k < DIRECT && 0 < b < MAX_DATA && !v.dbits[b]
    requires v.inodes[n].blocks[k] == 0 && (k == 0 || v.inodes[n].blocks[k - 1] != 0)
    ensures Consistent(Grow(v, n, k, b), pending)
    ensures Files(Grow(v, n, k, b)) == Files(v)
    ensures forall m: nat :: Live(v, m) ==> FileAt(Grow(v, n, k, b), m) == FileAt(v, m)
  {
    assert Unfold(OfConsistent, 0);
    var w := Grow(v, n, k, b);
    GrowKeepsBlocks(v, n, k, b);
    DirectorySame(v, w, pending);
    forall m: nat | Live(v, m) ensures FileAt(w, m) == FileAt(v, m) {
      assert GoodInode(v.inodes[m]);
      forall j | 0 <= j < DIRECT && 512 * j < v.inodes[m].size ensures v.inodes[m].blocks[j] != b {
        assert !Owns(v, m, j, b);
      }
      SameBytes(v, v.inodes[m], w, w.inodes[m]);
    }
    FilesSame(v, w);
  }

  /** The directory clauses do not look at contents, nor at pointers beyond the root's being set. */
  lemma DirectorySame(v: Volume, w: Volume, pending: set<nat>)
    requires Directory(v, pending) && w.dir == v.dir && w.ibits == v.ibits
    requires w.inodes[0].size == v.inodes[0].size
    requires forall k :: 0 <= k < DIRECT && v.inodes[0].blocks[k] != 0 ==> w.inodes[0].blocks[k] != 0
    ensures Directory(w, pending)
  {
    assert UsedSlots(w) == UsedSlots(v);
    assert forall m: nat :: Live(w, m) <==> Live(v, m);
    assert forall m: nat :: Listed(w, m) <==> Listed(v, m);
  }

  /** Contents depend only on the size and on the blocks below it. */
  lemma SameBytes(v: Volume, i: Inode, w: Volume, j: Inode)
    requires i.size == j.size <= MAX_FILE_SIZE
    requires forall k :: 0 <= k < DIRECT && 512 * k < i.size ==>
               i.blocks[k] == j.blocks[k] < MAX_DATA && v.data[i.blocks[k]] == w.data[i.blocks[k]]
    ensures Contents(v, i) == Contents(w, j)
  {
  }

  // ---------------------------------------------------------------- change 3: a directory entry is written

  function Enter(v: Volume, s: nat, n: u32, name: Name, now: u32): (w: Volume)
    requires s < ROOT_SLOTS && v.inodes[0].blocks[s / 16] < MAX_DATA
  {
    var root := v.inodes[0];
    var p := root.blocks[s / 16];
    v.(data := v.data[p := PutEntry(v.data[p], s % 16, n, name)],
       inodes := v.inodes[0 := root.(size := Add32(root.size, 32), modified := now)],
       dir := v.dir[s := Slot(n, Stored(name))])
  }

  lemma UsedSlotsBound(v: Volume)
    ensures |UsedSlots(v)| <= ROOT_SLOTS
    ensures |UsedSlots(v)| == ROOT_SLOTS <==> forall s :: 0 <= s < ROOT_SLOTS ==> v.dir[s].inode != 0
  {
    AtMost(UsedSlots(v), ROOT_SLOTS);
    if forall s :: 0 <= s < ROOT_SLOTS ==> v.dir[s].inode != 0 {
      AtLeast(UsedSlots(v), ROOT_SLOTS);
    }
  }

  /** Sixteen entries of 32 bytes fit a block, so the root's size never outgrows its blocks. */
  lemma RootSizeCovered(v: Volume)
    requires forall j, k :: 0 <= j < k < DIRECT && v.inodes[0].blocks[k] != 0 ==> v.inodes[0].blocks[j] != 0
    requires forall s :: s in UsedSlots(v) ==> v.inodes[0].blocks[s / 16] != 0
    ensures 32 * |UsedSlots(v)| <= MAX_FILE_SIZE
    ensures forall k :: 0 <= k < DIRECT && 512 * k < 32 * |UsedSlots(v)| ==> v.inodes[0].blocks[k] != 0
  {
    UsedSlotsBound(v);
    forall k | 0 <= k < DIRECT && v.inodes[0].blocks[k] == 0 ensures |UsedSlots(v)| <= 16 * k {
      forall s | s in UsedSlots(v) ensures s < 16 * k {
        assert s / 16 < k;
      }
      AtMost(UsedSlots(v), 16 * k);
    }
  }

  /** A write to a root directory block is invisible in every file other than the root. */
  lemma RootBlockWrite(v: Volume, w: Volume, p: nat, n: nat)
    requires InodesGood(v) && BlocksOwned(v) && Live(v, n) && n != 0
    requires p in v.inodes[0].blocks && p != 0
    requires Live(w, n) && w.inodes[n] == v.inodes[n]
    requires forall b :: 0 <= b < MAX_DATA && b != p ==> w.data[b] == v.data[b]
    ensures FileAt(w, n) == FileAt(v, n)
  {
    var k :| 0 <= k < DIRECT && v.inodes[0].blocks[k] == p;
    assert Owns(v, 0, k, p);
    var i := v.inodes[n];
    assert GoodInode(i);
    forall j | 0 <= j < DIRECT && 512 * j < i.size ensures i.blocks[j] != p {
      assert Owns(v, n, j, i.blocks[j]);
    }
    SameBytes(v, i, w, i);
  }

  lemma SlotsEntered(v: Volume, w: Volume, s: nat, n: u32, name: Name)
    requires SlotsGood(v) && s < ROOT_SLOTS && v.dir[s].inode == 0 && n != 0 && Live(v, n) && !Listed(v, n)
    requires v.inodes[0].blocks[s / 16] != 0 && 1 <= |name| <= MAX_FILENAME && name !in Names(v)
    requires w.ibits == v.ibits && w.dir == v.dir[s := Slot(n, name)] && w.inodes[0].blocks == v.inodes[0].blocks
    ensures UsedSlots(w) == UsedSlots(v) + {s}
    ensures SlotsGood(w)
  {
  }

  lemma DirectoryEntered(v: Volume, w: Volume, pending: set<nat>, s: nat, n: u32, name: Name)
    requires Directory(v, pending) && n in pending && s < ROOT_SLOTS && v.dir[s].inode == 0
    requires v.inodes[0].blocks[s / 16] != 0 && 1 <= |name| <= MAX_FILENAME && name !in Names(v)
    requires w.ibits == v.ibits && w.dir == v.dir[s := Slot(n, name)]
    requires w.inodes[0].blocks == v.inodes[0].blocks && w.inodes[0].size == v.inodes[0].size + DIRENT_BYTES
    ensures Directory(w, pending - {n})
  {
    SlotsEntered(v, w, s, n, name);
    forall m: nat ensures Listed(w, m) <==> m == n || Listed(v, m) {
      if m == n {
        assert s in UsedSlots(w) && w.dir[s].inode == n;
      } else if Listed(v, m) {
        var t :| t in UsedSlots(v) && v.dir[t].inode == m;
        assert t in UsedSlots(w) && w.dir[t].inode == m;
      }
    }
    assert forall m: nat :: Live(w, m) <==> Live(v, m);
  }

  /** The map after an entry for inode `n` has been written to slot `s`. */
  lemma FilesEntered(v: Volume, w: Volume, s: nat, n: u32, name: Name)
    requires InodesGood(v) && BlocksOwned(v) && SlotsGood(v) && SlotsGood(w)
    requires s < ROOT_SLOTS && v.dir[s].inode == 0 && n != 0 && Live(v, n) && name !in Names(v)
    requires w.ibits == v.ibits && w.dir == v.dir[s := Slot(n, name)] && w.inodes[1..] == v.inodes[1..]
    requires v.inodes[0].blocks[s / 16] != 0
    requires forall b :: 0 <= b < MAX_DATA && b != v.inodes[0].blocks[s / 16] ==> w.data[b] == v.data[b]
    ensures Files(w) == Files(v)[name := FileAt(v, n)]
  {
    assert UsedSlots(w) == UsedSlots(v) + {s};
    var m := Files(v)[name := FileAt(v, n)];
    forall t | t in UsedSlots(w) ensures w.dir[t].name in m && m[w.dir[t].name] == FileAt(w, w.dir[t].inode) {
      var x := w.dir[t].inode;
      assert w.inodes[x] == w.inodes[1..][x - 1] == v.inodes[x];
      RootBlockWrite(v, w, v.inodes[0].blocks[s / 16], x);
      if t != s {
        FilesAt(v, t);
      }
    }
    forall x | x in m ensures exists t :: t in UsedSlots(w) && w.dir[t].name == x {
      var t := if x == name then s else SlotNamed(v, x);
      assert t in UsedSlots(w) && w.dir[t].name == x;
    }
    FilesAre(w, m);
  }

  lemma RootEntryKeepsBlocks(v: Volume, w: Volume, pending: set<nat>)
    requires InodesGood(v) && BlocksOwned(v) && Directory(w, pending)
    requires w.ibits == v.ibits && w.dbits == v.dbits && w.inodes[1..] == v.inodes[1..]
    requires w.inodes[0].blocks == v.inodes[0].blocks && w.inodes[0].mode == v.inodes[0].mode
    ensures InodesGood(w) && BlocksOwned(w)
  {
    forall m: nat | 0 < m < TABLE_INODES ensures w.inodes[m] == v.inodes[m] {
      assert w.inodes[m] == w.inodes[1..][m - 1] && v.inodes[m] == v.inodes[1..][m - 1];
    }
    assert GoodInode(v.inodes[0]) && Live(v, 0);
    assert forall m: nat :: Live(w, m) <==> Live(v, m);
    assert forall m, j, c: nat :: Owns(w, m, j, c) <==> Owns(v, m, j, c);
    RootSizeCovered(w);
    assert GoodInode(w.inodes[0]);
  }

  lemma EnterKeeps(v: Volume, pending: set<nat>, s: nat, n: u32, name: Name, now: u32)
    requires Consistent(v, pending) && n in pending && s < ROOT_SLOTS && v.dir[s].inode == 0
    requires v.inodes[0].blocks[s / 16] != 0 && name != [] && Stored(name) !in Names(v)
    ensures v.inodes[0].blocks[s / 16] < MAX_DATA
    ensures Consistent(Enter(v, s, n, name, now), pending - {n})
    ensures Files(Enter(v, s, n, name, now)) == Files(v)[Stored(name) := FileAt(v, n)]
  {
    RootShape(v, pending);
    EnterShape(v, s, n, name, now);
    EnteredKeeps(v, Enter(v, s, n, name, now), pending, s, n, Stored(name));
  }

  lemma RootShape(v: Volume, pending: set<nat>)
    requires Consistent(v, pending)
    ensures v.inodes[0].size == 32 * |UsedSlots(v)| <= MAX_FILE_SIZE
    ensures forall k :: 0 <= k < DIRECT ==> v.inodes[0].blocks[k] < MAX_DATA
  {
    assert Unfold(OfConsistent, 0);
    assert Live(v, 0) && GoodInode(v.inodes[0]);
  }

  lemma EnterShape(v: Volume, s: nat, n: u32, name: Name, now: u32)
    requires s < ROOT_SLOTS && v.inodes[0].blocks[s / 16] < MAX_DATA && v.inodes[0].size <= MAX_FILE_SIZE
    ensures RootEdited(v, Enter(v, s, n, name, now), s, Slot(n, Stored(name)))
    ensures Enter(v, s, n, name, now).inodes[0].size == v.inodes[0].size + DIRENT_BYTES
  {
  }

  /** `w` is `v` with slot `s` of the root directory rewritten. */
  ghost predicate RootEdited(v: Volume, w: Volume, s: nat, x: Slot)
    requires s < ROOT_SLOTS
  {
    && w.ibits == v.ibits && w.dbits == v.dbits && w.dir == v.dir[s := x]
    && w.inodes[1..] == v.inodes[1..]
    && w.inodes[0].blocks == v.inodes[0].blocks && w.inodes[0].mode == v.inodes[0].mode
    && forall b :: 0 <= b < MAX_DATA && b != v.inodes[0].blocks[s / 16] ==> w.data[b] == v.data[b]
  }

  lemma EnteredKeeps(v: Volume, w: Volume, pending: set<nat>, s: nat, n: u32, name: Name)
    requires Consistent(v, pending) && n in pending && s < ROOT_SLOTS && v.dir[s].inode == 0
    requires v.inodes[0].blocks[s / 16] != 0 && 1 <= |name| <= MAX_FILENAME && name !in Names(v)
    requires RootEdited(v, w, s, Slot(n, name)) && w.inodes[0].size == v.inodes[0].size + DIRENT_BYTES
    ensures Consistent(w, pending - {n})
    ensures Files(w) == Files(v)[name := FileAt(v, n)]
  {
    assert Unfold(OfConsistent, 0);
    DirectoryEntered(v, w, pending, s, n, name);
    RootEntryKeepsBlocks(v, w, pending - {n});
    FilesEntered(v, w, s, n, name);
  }

  // ---------------------------------------------------------------- change 4: a directory entry is cleared

  function Leave(v: Volume, s: nat, now: u32): (w: Volume)
    requires s < ROOT_SLOTS && v.inodes[0].blocks[s / 16] < MAX_DATA
  {
    var root := v.inodes[0];
    var p := root.blocks[s / 16];
    v.(data := v.data[p := ClearEntry(v.data[p], s % 16)],
       inodes := v.inodes[0 := root.(size := Add32(root.size, 0xFFFF_FFE0), modified := now)],
       dir := v.dir[s := Slot(0, [])])
  }

  lemma SlotsLeft(v: Volume, w: Volume, s: nat)
    requires SlotsGood(v) && s in UsedSlots(v)
    requires w.ibits == v.ibits && w.dir == v.dir[s := Slot(0, [])] && w.inodes[0].blocks == v.inodes[0].blocks
    ensures UsedSlots(w) == UsedSlots(v) - {s}
    ensures SlotsGood(w)
  {
  }

  lemma DirectoryLeft(v: Volume, w: Volume, pending: set<nat>, s: nat)
    requires Directory(v, pending) && s in UsedSlots(v)
    requires w.ibits == v.ibits && w.dir == v.dir[s := Slot(0, [])]
    requires w.inodes[0].blocks == v.inodes[0].blocks && w.inodes[0].size == v.inodes[0].size - DIRENT_BYTES
    ensures Directory(w, pending + {v.dir[s].inode})
  {
    var n := v.dir[s].inode;
    SlotsLeft(v, w, s);
    forall m: nat ensures Listed(w, m) <==> m != n && Listed(v, m) {
      if m != n && Listed(v, m) {
        var t :| t in UsedSlots(v) && v.dir[t].inode == m;
        assert t in UsedSlots(w) && w.dir[t].inode == m;
      }
    }
    assert forall m: nat :: Live(w, m) <==> Live(v, m);
  }

  lemma FilesLeft(v: Volume, w: Volume, s: nat)
    requires InodesGood(v) && BlocksOwned(v) && SlotsGood(v) && SlotsGood(w) && s in UsedSlots(v)
    requires w.ibits == v.ibits && w.dir == v.dir[s := Slot(0, [])] && w.inodes[1..] == v.inodes[1..]
    requires forall b :: 0 <= b < MAX_DATA && b != v.inodes[0].blocks[s / 16] ==> w.data[b] == v.data[b]
    ensures Files(w) == Files(v) - {v.dir[s].name}
  {
    assert UsedSlots(w) == UsedSlots(v) - {s};
    var m := Files(v) - {v.dir[s].name};
    forall t | t in UsedSlots(w) ensures w.dir[t].name in m && m[w.dir[t].name] == FileAt(w, w.dir[t].inode) {
      var x := w.dir[t].inode;
      assert w.inodes[x] == w.inodes[1..][x - 1] == v.inodes[x];
      RootBlockWrite(v, w, v.inodes[0].blocks[s / 16], x);
      FilesAt(v, t);
    }
    forall x | x in m ensures exists t :: t in UsedSlots(w) && w.dir[t].name == x {
      var t := SlotNamed(v, x);
      assert t in UsedSlots(w) && w.dir[t].name == x;
    }
    FilesAre(w, m);
  }

  lemma LeaveKeeps(v: Volume, pending: set<nat>, s: nat, now: u32)
    requires Consistent(v, pending) && s in UsedSlots(v)
    ensures v.inodes[0].blocks[s / 16] < MAX_DATA
    ensures Consistent(Leave(v, s, now), pending + {v.dir[s].inode})
    ensures Files(Leave(v, s, now)) == Files(v) - {v.dir[s].name}
  {
    RootShape(v, pending);
    LeaveShape(v, s, now);
    LeftKeeps(v, Leave(v, s, now), pending, s);
  }

  lemma LeaveShape(v: Volume, s: nat, now: u32)
    requires s in UsedSlots(v) && v.inodes[0].blocks[s / 16] < MAX_DATA
    requires v.inodes[0].size == 32 * |UsedSlots(v)| <= MAX_FILE_SIZE
    ensures RootEdited(v, Leave(v, s, now), s, Slot(0, []))
    ensures Leave(v, s, now).inodes[0].size == v.inodes[0].size - DIRENT_BYTES
  {
  }

  lemma LeftKeeps(v: Volume, w: Volume, pending: set<nat>, s: nat)
    requires Consistent(v, pending) && s in UsedSlots(v)
    requires RootEdited(v, w, s, Slot(0, [])) && w.inodes[0].size == v.inodes[0].size - DIRENT_BYTES
    ensures Consistent(w, pending + {v.dir[s].inode})
    ensures Files(w) == Files(v) - {v.dir[s].name}
  {
    assert Unfold(OfConsistent, 0);
    DirectoryLeft(v, w, pending, s);
    RootEntryKeepsBlocks(v, w, pending + {v.dir[s].inode});
    FilesLeft(v, w, s);
  }

  // ---------------------------------------------------------------- change 5: an inode and its blocks are freed

  /** The data bit map with the blocks in `freed` cleared. */
  function Freed(bits: seq<bool>, freed: seq<u32>): (r: seq<bool>)
    ensures |r| == |bits|
    ensures forall b :: 0 <= b < |bits| ==> r[b] == (bits[b] && (b == 0 || b !in freed))
  {
    seq(|bits|, b requires 0 <= b < |bits| => bits[b] && (b == 0 || b !in freed))
  }

  function Release(v: Volume, n: nat): (w: Volume)
    requires n < TABLE_INODES
  {
    v.(ibits := v.ibits[n := false], dbits := Freed(v.dbits, v.inodes[n].blocks))
  }

  lemma ReleaseKeepsBlocks(v: Volume, n: nat)
    requires InodesGood(v) && BlocksOwned(v) && Live(v, n) && n != 0
    ensures InodesGood(Release(v, n)) && BlocksOwned(Release(v, n))
  {
    var w := Release(v, n);
    assert forall m: nat :: Live(w, m) <==> m != n && Live(v, m);
    assert forall m, j, c: nat :: Owns(w, m, j, c) <==> m != n && Owns(v, m, j, c);
    forall m, j, c: nat | Owns(w, m, j, c) && c != 0 ensures c < MAX_DATA && w.dbits[c] {
      assert Owns(v, m, j, c);
      if k :| 0 <= k < DIRECT && v.inodes[n].blocks[k] == c {
        assert Owns(v, n, k, c);
      }
    }
    forall c | 0 < c < MAX_DATA && w.dbits[c] ensures exists m, j :: Owns(w, m, j, c) {
      var m: nat, j: nat :| Owns(v, m, j, c);
      assert Owns(w, m, j, c);
    }
  }

  lemma ReleaseKeeps(v: Volume, pending: set<nat>, n: nat)
    requires Consistent(v, pending) && n in pending && n < TABLE_INODES
    ensures Consistent(Release(v, n), pending - {n})
    ensures Files(Release(v, n)) == Files(v)
  {
    assert Unfold(OfConsistent, 0);
    var w := Release(v, n);
    ReleaseKeepsBlocks(v, n);
    assert forall m: nat :: Live(w, m) <==> m != n && Live(v, m);
    assert UsedSlots(w) == UsedSlots(v);
    assert forall m: nat :: Listed(w, m) <==> Listed(v, m);
    assert forall t :: t in UsedSlots(v) ==> v.dir[t].inode != n by {
      assert !Listed(v, n);
    }
    assert Directory(w, pending - {n});
    assert forall m: nat :: Live(w, m) ==> FileAt(w, m) == FileAt(v, m);
    FilesSame(v, w);
  }

  // ---------------------------------------------------------------- change 6: bytes are stored in a file

  /** `chunk` replaces what lies at `pos`, extending the sequence if it reaches past the end. */
  function Overwrite(s: seq<byte>, pos: nat, chunk: seq<byte>): (r: seq<byte>)
    requires pos <= |s|
    ensures |r| == if pos + |chunk| > |s| then pos + |chunk| else |s|
    ensures forall k :: 0 <= k < |r| ==> r[k] == if pos <= k < pos + |chunk| then chunk[k - pos] else s[k]
  {
    s[..pos] + chunk + (if pos + |chunk| < |s| then s[pos + |chunk|..] else [])
  }

  /** An inode after a write that ended at byte `end`. */
  function Resized(i: Inode, end: u32): (r: Inode) {
    if end > i.size then i.(size := end) else i
  }

  function Store(v: Volume, n: nat, pos: nat, chunk: seq<byte>): (w: Volume)
    requires n < TABLE_INODES && pos < MAX_FILE_SIZE && v.inodes[n].blocks[pos / 512] < MAX_DATA && pos % 512 + |chunk| <= 512
  {
    var i := v.inodes[n];
    var p := i.blocks[pos / 512];
    v.(data := v.data[p := Patch(v.data[p], pos % 512, chunk)], inodes := v.inodes[n := Resized(i, pos + |chunk|)])
  }

  lemma StoreKeepsBlocks(v: Volume, n: nat, pos: nat, chunk: seq<byte>)
    requires InodesGood(v) && BlocksOwned(v) && Live(v, n) && n != 0 && pos < MAX_FILE_SIZE && pos <= v.inodes[n].size
    requires 0 < v.inodes[n].blocks[pos / 512] < MAX_DATA && pos % 512 + |chunk| <= 512
    ensures InodesGood(Store(v, n, pos, chunk)) && BlocksOwned(Store(v, n, pos, chunk))
  {
    var w := Store(v, n, pos, chunk);
    assert forall m: nat :: Live(w, m) <==> Live(v, m);
    assert forall m, j, c: nat :: Owns(w, m, j, c) <==> Owns(v, m, j, c);
    assert GoodInode(v.inodes[n]);
    assert pos == 512 * (pos / 512) + pos % 512;
    assert GoodInode(w.inodes[n]);
  }

  lemma StoreContents(v: Volume, n: nat, pos: nat, chunk: seq<byte>)
    requires InodesGood(v) && BlocksOwned(v) && Live(v, n) && n != 0 && pos < MAX_FILE_SIZE && pos <= v.inodes[n].size
    requires 0 < v.inodes[n].blocks[pos / 512] < MAX_DATA && pos % 512 + |chunk| <= 512
    ensures FileAt(Store(v, n, pos, chunk), n) == Overwrite(FileAt(v, n), pos, chunk)
    ensures forall m: nat :: Live(v, m) && m != n ==> FileAt(Store(v, n, pos, chunk), m) == FileAt(v, m)
  {
    var w := Store(v, n, pos, chunk);
    var i, k := v.inodes[n], pos / 512;
    var p := i.blocks[k];
    assert pos == 512 * k + pos % 512;
    assert Owns(v, n, k, p);
    assert GoodInode(i);
    var r := Overwrite(FileAt(v, n), pos, chunk);
    forall q | 0 <= q < |r| ensures ByteOf(w, w.inodes[n], q) == r[q] {
      var j := q / 512;
      if j != k {
        assert Owns(v, n, j, i.blocks[j]);
      }
    }
    assert FileAt(w, n) == r;
    forall m: nat | Live(v, m) && m != n ensures FileAt(w, m) == FileAt(v, m) {
      assert GoodInode(v.inodes[m]);
      forall j | 0 <= j < DIRECT && 512 * j < v.inodes[m].size ensures v.inodes[m].blocks[j] != p {
        assert Owns(v, m, j, v.inodes[m].blocks[j]);
      }
      SameBytes(v, v.inodes[m], w, w.inodes[m]);
    }
  }

  lemma StoreKeeps(v: Volume, s: nat, pos: nat, chunk: seq<byte>)
    requires Consistent(v, {}) && s in UsedSlots(v) && v.dir[s].inode < TABLE_INODES && pos < MAX_FILE_SIZE
    requires v.inodes[v.dir[s].inode].blocks[pos / 512] != 0 && pos % 512 + |chunk| <= 512
    requires pos <= v.inodes[v.dir[s].inode].size
    ensures v.inodes[v.dir[s].inode].blocks[pos / 512] < MAX_DATA
    ensures v.dir[s].name in Files(v) && |Files(v)[v.dir[s].name]| == v.inodes[v.dir[s].inode].size
    ensures var w := Store(v, v.dir[s].inode, pos, chunk);
            && Consistent(w, {})
            && Files(w) == Files(v)[v.dir[s].name := Overwrite(Files(v)[v.dir[s].name], pos, chunk)]
  {
    assert Unfold(OfConsistent, 0);
    var n, name := v.dir[s].inode, v.dir[s].name;
    assert GoodInode(v.inodes[n]);
    FilesAt(v, s);
    var w := Store(v, n, pos, chunk);
    StoreKeepsBlocks(v, n, pos, chunk);
    StoreContents(v, n, pos, chunk);
    DirectorySame(v, w, {});
    FilesStored(v, w, s);
  }

  /** The map when the contents of the file in slot `s` are all that changed. */
  lemma FilesStored(v: Volume, w: Volume, s: nat)
    requires SlotsGood(v) && SlotsGood(w) && s in UsedSlots(v) && w.dir == v.dir
    requires forall m: nat :: Live(v, m) && m != v.dir[s].inode ==> FileAt(w, m) == FileAt(v, m)
    ensures Files(w) == Files(v)[v.dir[s].name := FileAt(w, v.dir[s].inode)]
  {
    assert UsedSlots(w) == UsedSlots(v);
    var m := Files(v)[v.dir[s].name := FileAt(w, v.dir[s].inode)];
    forall t | t in UsedSlots(w) ensures w.dir[t].name in m && m[w.dir[t].name] == FileAt(w, w.dir[t].inode) {
      FilesAt(v, t);
    }
    forall x | x in m ensures exists t :: t in UsedSlots(w) && w.dir[t].name == x {
      FilesAt(v, s);
      var t := SlotNamed(v, x);
      assert t in UsedSlots(w) && w.dir[t].name == x;
    }
    FilesAre(w, m);
  }
}
