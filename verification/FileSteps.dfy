/** What the file system calls do to a volume and to the open files, step by step: the facts
    the methods of `WitFs.FileSystem` put together. */
module FileSteps {
  import opened Words
  import opened Layout
  import opened Volumes
  import opened VolumeBounds
  import opened VolumeSteps

  const MAX_OPEN: nat := 16
  const TYPE_DIR: u32 := 2
  const SLASH: byte := 47

  datatype OpenFile = OpenFile(inode: u32, position: u32, flags: u32, inUse: bool)

  const CLOSED: OpenFile := OpenFile(0, 0, 0, false)

  /** `type | FS_PERM_DEFAULT`. */
  function WithDefaultPerms(x: u32): (r: u32) {
    WithBit(WithBit(x, 1), 2) % 0x1_0000_0000
  }

  /** A descriptor after `n` bytes have been read or written. */
  function Advanced(f: OpenFile, n: nat): (r: OpenFile) {
    f.(position := (f.position + n) % 0x1_0000_0000)
  }

  /** The superblock that formatting writes; it is never written again. */
  const FORMAT_SUPER: Superblock := Superblock(MAGIC, 1, 512, 2048, 1, 2, 3, 67, 512, 1981, 511, 1980, 0)

  /** Block 0 still holds that superblock; folded like the other facts about bytes. */
  ghost predicate SavedSuper(b: Block) {
    forall k {:trigger Unfold(OfSavedSuper, k)} :: Unfold(OfSavedSuper, k) ==> SuperAt(b) == FORMAT_SUPER
  }

  lemma SavedSuperIs(b: Block)
    ensures SavedSuper(b) <==> SuperAt(b) == FORMAT_SUPER
  {
    assert Unfold(OfSavedSuper, 0);
  }

  /** The words of that superblock, in the order of the struct; the first is the magic number a mount asks for. */
  lemma SavedWords(b: Block)
    ensures SavedSuper(b) <==>
            && WordAt(b, 0) == 0x5749_5443 && WordAt(b, 4) == 1 && WordAt(b, 8) == 512 && WordAt(b, 12) == 2048
            && WordAt(b, 16) == 1 && WordAt(b, 20) == 2 && WordAt(b, 24) == 3 && WordAt(b, 28) == 67
            && WordAt(b, 32) == 512 && WordAt(b, 36) == 1981 && WordAt(b, 40) == 511 && WordAt(b, 44) == 1980 && WordAt(b, 48) == 0
    ensures SuperAt(b).magic == MAGIC <==> WordAt(b, 0) == 0x5749_5443
  {
    SavedSuperIs(b);
    var w := WordsAt(b, 0, 13);
    assert w[0] == WordAt(b, 0) && w[1] == WordAt(b, 4) && w[2] == WordAt(b, 8) && w[3] == WordAt(b, 12) && w[4] == WordAt(b, 16)
           && w[5] == WordAt(b, 20) && w[6] == WordAt(b, 24) && w[7] == WordAt(b, 28) && w[8] == WordAt(b, 32) && w[9] == WordAt(b, 36)
           && w[10] == WordAt(b, 40) && w[11] == WordAt(b, 44) && w[12] == WordAt(b, 48);
  }

  /** The mode of a new file is 7 and that of a directory 6, so a file passes the test for a directory. */
  lemma ModesAlike()
    ensures WithDefaultPerms(1) == 7 && WithDefaultPerms(2) == 6
    ensures BitOf(WithDefaultPerms(1), 1) && BitOf(WithDefaultPerms(2), 1)
  {
    assert WithBit(1, 1) == 2 * WithBit(0, 0) + 1 && WithBit(2, 1) == 2 * WithBit(1, 0);
    assert WithBit(3, 2) == 2 * WithBit(1, 1) + 1 && WithBit(2, 2) == 2 * WithBit(1, 1);
    assert BitOf(7, 1) && BitOf(6, 1);
  }

  /** A path with its optional leading slash removed. */
  function NameOf(path: seq<byte>): (name: Name) {
    if path != [] && path[0] == SLASH then path[1..] else path
  }

  /** One slash in front of a name is dropped, and a name without one is taken as it is. */
  lemma SlashDropped(name: Name)
    ensures NameOf([47] + name) == name
    ensures name == [] || name[0] != 47 ==> NameOf(name) == name
  {
    assert ([47] + name)[1..] == name;
  }

  /** The lookup, slot by slot: the inode of the used slot with that name, or -1 when there is none. */
  ghost predicate FoundAt(v: Volume, name: Name, r: int) {
    || (r > 0 && exists s :: 0 <= s < ROOT_SLOTS && v.dir[s].inode == r && v.dir[s].name == name)
    || (r == -1 && forall s :: 0 <= s < ROOT_SLOTS && v.dir[s].inode != 0 ==> v.dir[s].name != name)
  }

  lemma LookupExact(v: Volume, name: Name)
    ensures FoundAt(v, name, Lookup(v, name))
  {
    if name in Names(v) {
      var s := SlotNamed(v, name);
      assert v.dir[s].inode == Lookup(v, name) && v.dir[s].name == name;
    } else {
      forall s | 0 <= s < ROOT_SLOTS && v.dir[s].inode != 0 ensures v.dir[s].name != name {
        assert s in UsedSlots(v);
      }
    }
  }

  ghost predicate Small(v: Volume) {
    forall n :: 0 <= n < MAX_INODES && v.ibits[n] ==> n <= 160
  }

  /** A descriptor on the root, or on a listed file with its position inside the file. */
  ghost predicate GoodFd(v: Volume, f: OpenFile) {
    f.inode == 0 || (f.inode < TABLE_INODES && Listed(v, f.inode) && f.position <= v.inodes[f.inode].size)
  }

  /** Every descriptor in use is good; folded. */
  ghost predicate GoodFds(v: Volume, files: seq<OpenFile>) {
    forall o {:trigger Unfold(OfGoodFds, o)} :: Unfold(OfGoodFds, o) ==> forall k :: 0 <= k < |files| && files[k].inUse ==> GoodFd(v, files[k])
  }

  lemma GoodFdsAre(v: Volume, files: seq<OpenFile>)
    ensures GoodFds(v, files) <==> forall k :: 0 <= k < |files| && files[k].inUse ==> GoodFd(v, files[k])
  {
    assert Unfold(OfGoodFds, 0);
  }

  lemma FdAt(v: Volume, files: seq<OpenFile>, k: nat)
    requires GoodFds(v, files) && k < |files| && files[k].inUse
    ensures GoodFd(v, files[k])
  {
    GoodFdsAre(v, files);
  }

  /** Names other than those in `gone` still denote the same inodes; folded. */
  ghost predicate Kept(v: Volume, w: Volume, gone: set<Name>) {
    forall k {:trigger Unfold(OfKept, k)} :: Unfold(OfKept, k) ==>
      forall x :: x in Names(v) && x !in gone ==> x in Names(w) && Lookup(w, x) == Lookup(v, x)
  }

  lemma KeptIs(v: Volume, w: Volume, gone: set<Name>)
    ensures Kept(v, w, gone) <==> forall x :: x in Names(v) && x !in gone ==> x in Names(w) && Lookup(w, x) == Lookup(v, x)
  {
    assert Unfold(OfKept, 0);
  }

  /** Rewriting one slot keeps the names in all the others. */
  lemma KeptBut(v: Volume, w: Volume, s: nat, x: Slot)
    requires SlotsGood(v) && SlotsGood(w) && s < ROOT_SLOTS && w.dir == v.dir[s := x]
    ensures Kept(v, w, if v.dir[s].inode == 0 then {} else {v.dir[s].name})
  {
    forall y | y in Names(v) && SlotNamed(v, y) != s ensures y in Names(w) && Lookup(w, y) == Lookup(v, y) {
      LookupFound(w, y, SlotNamed(v, y));
    }
    KeptIs(v, w, if v.dir[s].inode == 0 then {} else {v.dir[s].name});
  }

  lemma KeptSame(v: Volume, w: Volume)
    requires Consistent(v, {}) && Consistent(w, {}) && v.dir == w.dir
    ensures Kept(v, w, {}) && forall x :: Lookup(v, x) == Lookup(w, x)
  {
    ConsistentParts(v, {});
    ConsistentParts(w, {});
    SameSlots(v, w);
    forall y | y in Names(v) ensures Lookup(w, y) == Lookup(v, y) {
      LookupFound(w, y, SlotNamed(v, y));
    }
    KeptIs(v, w, {});
  }

  /** Descriptors survive a change that keeps their inodes listed and no shorter. */
  lemma FdsKept(v: Volume, w: Volume, files: seq<OpenFile>)
    requires GoodFds(v, files)
    requires forall k :: 0 <= k < |files| && files[k].inUse && files[k].inode != 0 ==>
               Listed(w, files[k].inode) && files[k].inode < TABLE_INODES
               && v.inodes[files[k].inode].size <= w.inodes[files[k].inode].size
    ensures GoodFds(w, files)
  {
  }

  lemma FdsSet(v: Volume, files: seq<OpenFile>, k: nat, f: OpenFile)
    requires GoodFds(v, files) && k < |files| && GoodFd(v, f)
    ensures GoodFds(v, files[k := f])
  {
  }

  lemma BitsZero(v: Volume, pending: set<nat>)
    requires Consistent(v, pending)
    ensures v.ibits[0] && v.dbits[0]
  {
    ConsistentParts(v, pending);
  }

  lemma SlotCount(v: Volume)
    requires Consistent(v, {})
    ensures |Files(v)| == |UsedSlots(v)|
  {
    ConsistentParts(v, {});
    FileCount(v);
  }

  lemma SameSlots(v: Volume, w: Volume)
    requires v.dir == w.dir
    ensures UsedSlots(v) == UsedSlots(w) && Names(v) == Names(w)
  {
  }

  lemma RestoredBits(v: Volume, g: Volume, n: nat, b: nat, dir: bool)
    requires n < MAX_INODES && !v.ibits[n] && g.ibits == v.ibits[n := true] && b < MAX_DATA
    requires if dir then b != 0 && !v.dbits[b] && g.dbits == v.dbits[b := true] else g.dbits == v.dbits
    ensures g.ibits[n := false] == v.ibits && (if dir then g.dbits[b := false] else g.dbits) == v.dbits
  {
  }

  /** What `MakeInode` made of volume `v`; folded. */
  ghost predicate Made(v: Volume, g: Volume, n: nat, i: Inode, kind: u32) {
    forall k {:trigger Unfold(OfMade, k)} :: Unfold(OfMade, k) ==> MadeParts(v, g, n, i, kind)
  }

  ghost predicate MadeParts(v: Volume, g: Volume, n: nat, i: Inode, kind: u32) {
    && 0 < n < TABLE_INODES && n <= 1 + |UsedSlots(v)| && !v.ibits[n]
    && g.dir == v.dir && g.ibits == v.ibits[n := true] && g.inodes == v.inodes[n := i]
    && Files(g) == Files(v) && FileAt(g, n) == [] && i.size == 0 && i.mode == WithDefaultPerms(kind)
    && i.blocks[0] < MAX_DATA && (i.blocks[0] != 0) == (kind == TYPE_DIR)
    && (forall k :: 1 <= k < DIRECT ==> i.blocks[k] == 0)
    && (if kind == TYPE_DIR then !v.dbits[i.blocks[0]] && g.dbits == v.dbits[i.blocks[0] := true] else g.dbits == v.dbits)
  }

  lemma MadeIs(v: Volume, g: Volume, n: nat, i: Inode, kind: u32)
    ensures Made(v, g, n, i, kind) <==> MadeParts(v, g, n, i, kind)
  {
    assert Unfold(OfMade, 0);
  }

  lemma MadeFile(v: Volume, g: Volume, n: nat, i: Inode, kind: u32)
    requires 0 < n < TABLE_INODES && n <= 1 + |UsedSlots(v)| && !v.ibits[n] && kind != TYPE_DIR && Fresh(i)
    requires i.mode == WithDefaultPerms(kind)
    requires g == NewInode(v, n, i) && Files(g) == Files(v) && FileAt(g, n) == []
    ensures Made(v, g, n, i, kind) && g.dir == v.dir
  {
  }

  lemma MadeDir(v: Volume, g: Volume, n: nat, i: Inode, b: nat, kind: u32)
    requires 0 < n < TABLE_INODES && n <= 1 + |UsedSlots(v)| && !v.ibits[n] && kind == TYPE_DIR && Fresh(i)
    requires i.mode == WithDefaultPerms(kind)
    requires 0 < b < MAX_DATA && !v.dbits[b]
    requires g == Grow(NewInode(v, n, i), n, 0, b) && Files(g) == Files(v) && FileAt(g, n) == []
    ensures Made(v, g, n, i.(blocks := i.blocks[0 := b]), kind) && g.dir == v.dir
  {
  }

  /** What a create takes: one inode, which is empty and has the kind and the default permissions for its
      mode; for a directory one block; and at most one block for the root. */
  ghost predicate CreateTakes(v: Volume, w: Volume, kind: u32) {
    && (exists n :: 0 < n < TABLE_INODES && !v.ibits[n] && w.ibits == v.ibits[n := true]
          && w.inodes[n].size == 0 && w.inodes[n].mode == WithDefaultPerms(kind))
    && if kind == 2 then Takes(v.dbits, w.dbits) || exists own: seq<bool> :: Takes(v.dbits, own) && Takes(own, w.dbits)
       else w.dbits == v.dbits || Takes(v.dbits, w.dbits)
  }

  lemma CreateBits(v: Volume, g: Volume, w: Volume, n: u32, i: Inode, kind: u32, name: Name)
    requires Made(v, g, n, i, kind) && Added(g, w, n, name)
    ensures CreateTakes(v, w, kind)
  {
    assert Unfold(OfMade, 0) && Unfold(OfAdded, 0);
    assert kind == 2 ==> Takes(v.dbits, g.dbits);
    assert w.inodes[n] == w.inodes[1..][n - 1] == g.inodes[1..][n - 1] == i;
    assert g.dbits == w.dbits || Takes(g.dbits, w.dbits);
  }

  /** A completed create, from the volume before it to the volume after it. */
  lemma CreateDone(v: Volume, g: Volume, w: Volume, n: u32, i: Inode, kind: u32, name: Name, files: seq<OpenFile>)
    requires Consistent(v, {}) && Small(v) && GoodFds(v, files) && Made(v, g, n, i, kind)
    requires Added(g, w, n, name) && Stored(name) !in Names(v) && |UsedSlots(v)| < ROOT_SLOTS
    ensures Consistent(w, {}) && Small(w) && GoodFds(w, files) && Files(w) == Files(v)[Stored(name) := []] && Kept(v, w, {})
  {
    assert Unfold(OfMade, 0) && Unfold(OfAdded, 0);
    SameSlots(v, g);
    AddedFds(v, g, w, n, name, files);
    var s :| 0 <= s < ROOT_SLOTS && g.dir[s].inode == 0 && w.dir == g.dir[s := Slot(n, Stored(name))];
    ConsistentParts(v, {});
    ConsistentParts(w, {});
    KeptBut(v, w, s, Slot(n, Stored(name)));
  }

  lemma UndoneFds(v: Volume, g: Volume, w: Volume, n: nat, files: seq<OpenFile>)
    requires Consistent(v, {}) && GoodFds(v, files) && n < TABLE_INODES && !v.ibits[n]
    requires w.dir == g.dir == v.dir && w.inodes == g.inodes == v.inodes[n := g.inodes[n]]
    ensures GoodFds(w, files)
  {
    ConsistentParts(v, {});
    assert UsedSlots(w) == UsedSlots(v);
    forall k | 0 <= k < |files| && files[k].inUse && files[k].inode != 0
      ensures Listed(w, files[k].inode) && w.inodes[files[k].inode] == v.inodes[files[k].inode]
    {
      FdAt(v, files, k);
      var s :| s in UsedSlots(v) && v.dir[s].inode == files[k].inode;
      assert s in UsedSlots(w) && w.dir[s].inode == files[k].inode;
    }
    FdsKept(v, w, files);
  }

  lemma AddedFds(v: Volume, g: Volume, w: Volume, n: u32, name: Name, files: seq<OpenFile>)
    requires Consistent(v, {}) && GoodFds(v, files) && 0 < n < TABLE_INODES && !v.ibits[n]
    requires g.dir == v.dir && g.inodes == v.inodes[n := g.inodes[n]] && Added(g, w, n, name)
    ensures GoodFds(w, files)
  {
    assert Unfold(OfConsistent, 0) && Unfold(OfAdded, 0);
    var s :| 0 <= s < ROOT_SLOTS && g.dir[s].inode == 0 && w.dir == g.dir[s := Slot(n, Stored(name))];
    forall k | 0 <= k < |files| && files[k].inUse && files[k].inode != 0
      ensures Listed(w, files[k].inode) && w.inodes[files[k].inode] == v.inodes[files[k].inode]
    {
      FdAt(v, files, k);
      var x := files[k].inode;
      var t :| t in UsedSlots(v) && v.dir[t].inode == x;
      assert t in UsedSlots(w) && w.dir[t].inode == x;
      assert w.inodes[x] == w.inodes[1..][x - 1] && g.inodes[x] == g.inodes[1..][x - 1];
    }
    FdsKept(v, w, files);
  }

  /** A name that is found names a live inode other than the root. */
  lemma LookupLive(v: Volume, name: Name)
    requires Consistent(v, {}) && name in Names(v)
    ensures 0 < Lookup(v, name) < TABLE_INODES && Live(v, Lookup(v, name)) && Listed(v, Lookup(v, name))
    ensures SlotNamed(v, name) in UsedSlots(v) && v.dir[SlotNamed(v, name)].inode == Lookup(v, name)
    ensures v.inodes[0].blocks[SlotNamed(v, name) / 16] < MAX_DATA
    ensures 1 <= |name| <= MAX_FILENAME
  {
    ConsistentParts(v, {});
    RootShape(v, {});
  }

  lemma UnlinkFds(v: Volume, w: Volume, s: nat, files: seq<OpenFile>)
    requires GoodFds(v, files) && s in UsedSlots(v) && w.dir == v.dir[s := Slot(0, [])] && w.inodes[1..] == v.inodes[1..]
    requires forall k :: 0 <= k < |files| && files[k].inUse ==> files[k].inode != v.dir[s].inode
    ensures GoodFds(w, files)
  {
    GoodFdsAre(v, files);
    forall k | 0 <= k < |files| && files[k].inUse && files[k].inode != 0
      ensures Listed(w, files[k].inode) && w.inodes[files[k].inode] == v.inodes[files[k].inode]
    {
      var x := files[k].inode;
      var t :| t in UsedSlots(v) && v.dir[t].inode == x;
      assert t in UsedSlots(w) && w.dir[t].inode == x;
      assert w.inodes[x] == w.inodes[1..][x - 1] && v.inodes[x] == v.inodes[1..][x - 1];
    }
    FdsKept(v, w, files);
  }

  /** The volume after `name` has been unlinked. */
  ghost function Unlinked(v: Volume, name: Name, now: u32): (w: Volume)
    requires name in Names(v) && v.inodes[0].blocks[SlotNamed(v, name) / 16] < MAX_DATA && 0 <= Lookup(v, name) < TABLE_INODES
  {
    var u := Release(v, Lookup(v, name));
    Leave(v, SlotNamed(v, name), now).(ibits := u.ibits, dbits := u.dbits)
  }

  /** No descriptor in use is on inode `n`. */
  predicate NoneOn(files: seq<OpenFile>, n: int) {
    forall k :: 0 <= k < |files| && files[k].inUse ==> files[k].inode != n
  }

  /** A completed unlink: the volume is consistent again whether or not the file was open, and the
      descriptors are good if and only if it was not. */
  lemma UnlinkEffect(v: Volume, name: Name, now: u32, files: seq<OpenFile>)
    requires Consistent(v, {}) && DirRead(v) && Small(v) && GoodFds(v, files) && name in Names(v)
    requires v.inodes[0].blocks[SlotNamed(v, name) / 16] < MAX_DATA && 0 < Lookup(v, name) < TABLE_INODES
    ensures var n, w := Lookup(v, name), Unlinked(v, name, now);
            && Consistent(w, {}) && Small(w) && Files(w) == Files(v) - {name} && Kept(v, w, {name})
            && w.ibits == v.ibits[n := false] && w.dbits == Freed(v.dbits, v.inodes[n].blocks)
            && (GoodFds(w, files) <==> NoneOn(files, n))
  {
    var n, s, w := Lookup(v, name), SlotNamed(v, name), Unlinked(v, name, now);
    UnlinkDone(v, s, now);
    ConsistentParts(v, {});
    ConsistentParts(w, {});
    KeptBut(v, w, s, Slot(0, []));
    assert w.inodes[1..] == v.inodes[1..];
    if NoneOn(files, n) {
      UnlinkFds(v, w, s, files);
    } else {
      DanglingFd(w, n, files);
    }
    assert w.dbits == Freed(v.dbits, v.inodes[n].blocks);
  }

  /** A descriptor on an inode that is not live is not good. */
  lemma DanglingFd(w: Volume, n: nat, files: seq<OpenFile>)
    requires SlotsGood(w) && 0 < n && !Live(w, n) && !NoneOn(files, n)
    ensures !GoodFds(w, files)
  {
    GoodFdsAre(w, files);
    assert !Listed(w, n);
  }

  /** Unlinking the root frees inode 0, and no volume without it is consistent. */
  lemma RootUnlinked(v: Volume)
    requires Consistent(v, {})
    ensures [] !in Names(v) && Live(v, 0) && !Consistent(Release(v, 0), {})
  {
    ConsistentParts(v, {});
    ConsistentParts(Release(v, 0), {});
    if [] in Names(v) {
      LookupLive(v, []);
    }
  }

  /** A second entry of the same stored name makes the volume inconsistent. */
  lemma AddedCollides(v: Volume, w: Volume, n: u32, name: Name)
    requires Added(v, w, n, name) && Stored(name) in Names(v) && n != 0
    ensures !Consistent(w, {})
  {
    assert Unfold(OfAdded, 0);
    ConsistentParts(w, {});
    var s :| 0 <= s < ROOT_SLOTS && v.dir[s].inode == 0 && w.dir == v.dir[s := Slot(n, Stored(name))];
    var t := SlotNamed(v, Stored(name));
    assert s in UsedSlots(w) && t in UsedSlots(w) && s != t && w.dir[s].name == w.dir[t].name;
  }

  /** The volume on disk is `w` except that inode `n` is still to be written back as `i`. */
  ghost predicate Pending(v: Volume, w: Volume, n: nat, i: Inode)
    requires n < TABLE_INODES
  {
    v.(inodes := v.inodes[n := i]) == w
  }

  /** A file that one descriptor writes: consistent volume `w`, slot `s`, inode `n`. */
  ghost predicate Writing(w: Volume, s: nat, n: nat) {
    Consistent(w, {}) && DirRead(w) && s in UsedSlots(w) && w.dir[s].inode == n && 0 < n < TABLE_INODES
  }

  lemma WritingBlock(w: Volume, s: nat, n: nat, k: nat)
    requires Writing(w, s, n) && k < DIRECT
    ensures w.inodes[n].blocks[k] < MAX_DATA
  {
    ConsistentParts(w, {});
    assert GoodInode(w.inodes[n]);
  }

  /** Allocating the block first leaves disk and intended volume alike but for that block and inode. */
  lemma PendingBlock(v: Volume, w: Volume, g: Volume, n: nat, i: Inode, k: nat)
    requires 0 < n < TABLE_INODES && k < DIRECT && w.inodes[n] == i
    requires if i.blocks[k] == 0
             then exists b :: 0 < b < MAX_DATA && g == Grow(w, n, k, b) && Pending(v, w.(dbits := w.dbits[b := true]), n, i)
             else g == w && Pending(v, w, n, i) && i.blocks[k] < MAX_DATA
    ensures g.inodes[n].blocks[k] < MAX_DATA && v.inodes[0] == g.inodes[0]
    ensures SameBut(v, g, g.inodes[n].blocks[k], n)
  {
  }

  /** The block write of one round of `fs_write`, on the volume `g` in which the block is in place. */
  lemma ChunkWritten(v: Volume, g: Volume, s: nat, n: nat, pos: nat, chunk: seq<byte>) returns (w: Volume)
    requires Writing(g, s, n) && pos < MAX_FILE_SIZE && pos <= g.inodes[n].size && pos % 512 + |chunk| <= 512
    requires 0 < g.inodes[n].blocks[pos / 512] < MAX_DATA && SameBut(v, g, g.inodes[n].blocks[pos / 512], n)
    requires v.inodes[0] == g.inodes[0]
    ensures Writing(w, s, n) && w.dir == g.dir && w.ibits == g.ibits && w.inodes == g.inodes[n := Resized(g.inodes[n], pos + |chunk|)]
    ensures var p := g.inodes[n].blocks[pos / 512];
            Pending(Reread(v.(data := v.data[p := Patch(g.data[p], pos % 512, chunk)])), w, n, w.inodes[n])
    ensures g.dir[s].name in Files(g) && |Files(g)[g.dir[s].name]| == g.inodes[n].size
    ensures Files(w) == Files(g)[g.dir[s].name := Overwrite(Files(g)[g.dir[s].name], pos, chunk)]
  {
    StoreChunk(g, s, pos, chunk);
    var p := g.inodes[n].blocks[pos / 512];
    w := Store(g, n, pos, chunk);
    SameSlots(g, w);
    DirReadSlots(w);
    UpdateBoth(v.data, g.data, p, ZERO_BLOCK, Patch(g.data[p], pos % 512, chunk));
    UpdateBoth(v.inodes, g.inodes, n, EMPTY_INODE, w.inodes[n]);
  }

  /** What one round of `fs_write` makes of the intended volume; folded. */
  ghost predicate ChunkStored(w: Volume, w': Volume, s: nat, n: nat, i: Inode, i': Inode, pos: nat, chunk: seq<byte>)
    requires s < ROOT_SLOTS && n < TABLE_INODES
  {
    forall k {:trigger Unfold(OfChunkStored, k)} :: Unfold(OfChunkStored, k) ==> ChunkParts(w, w', s, n, i, i', pos, chunk)
  }

  ghost predicate ChunkParts(w: Volume, w': Volume, s: nat, n: nat, i: Inode, i': Inode, pos: nat, chunk: seq<byte>)
    requires s < ROOT_SLOTS && n < TABLE_INODES
  {
    && w'.dir == w.dir && w'.ibits == w.ibits && w'.inodes == w.inodes[n := i']
    && i'.size == (if pos + |chunk| > i.size then pos + |chunk| else i.size)
    && w.dir[s].name in Files(w) && pos <= |Files(w)[w.dir[s].name]|
    && Files(w') == Files(w)[w.dir[s].name := Overwrite(Files(w)[w.dir[s].name], pos, chunk)]
  }

  lemma ChunkIs(w: Volume, g: Volume, w': Volume, s: nat, n: nat, i: Inode, j: Inode, pos: nat, chunk: seq<byte>)
    requires s < ROOT_SLOTS && n < TABLE_INODES && pos < MAX_FILE_SIZE && pos <= i.size == j.size && |chunk| <= 512
    requires g.dir == w.dir && g.ibits == w.ibits && Files(g) == Files(w) && g.inodes == w.inodes[n := j]
    requires w'.dir == g.dir && w'.ibits == g.ibits && w'.inodes == g.inodes[n := Resized(j, pos + |chunk|)]
    requires g.dir[s].name in Files(g) && |Files(g)[g.dir[s].name]| == j.size
    requires Files(w') == Files(g)[g.dir[s].name := Overwrite(Files(g)[g.dir[s].name], pos, chunk)]
    ensures ChunkStored(w, w', s, n, i, Resized(j, pos + |chunk|), pos, chunk)
  {
    UpdateTwice(w.inodes, n, j, Resized(j, pos + |chunk|));
  }

  /** The block of the file in slot `s` that holds `pos` is in place in `g`, and `g` is what the disk
      `v` will be once `data` and inode `j` are written; `w` is the volume before. Folded. */
  ghost predicate BlockReady(v: Volume, w: Volume, g: Volume, s: nat, n: nat, i: Inode, j: Inode, data: Block, pos: nat) {
    forall k {:trigger Unfold(OfBlockReady, k)} :: Unfold(OfBlockReady, k) ==> ReadyParts(v, w, g, s, n, i, j, data, pos)
  }

  ghost predicate ReadyParts(v: Volume, w: Volume, g: Volume, s: nat, n: nat, i: Inode, j: Inode, data: Block, pos: nat) {
    && Writing(g, s, n) && pos < MAX_FILE_SIZE && pos <= i.size == j.size
    && g.dir == w.dir && g.ibits == w.ibits && Files(g) == Files(w) && g.inodes == w.inodes[n := j]
    && 0 < j.blocks[pos / 512] < MAX_DATA && data == g.data[j.blocks[pos / 512]]
    && SameBut(v, g, j.blocks[pos / 512], n) && v.inodes[0] == g.inodes[0]
  }

  lemma ReadyIs(v: Volume, w: Volume, g: Volume, s: nat, n: nat, i: Inode, j: Inode, data: Block, pos: nat)
    ensures BlockReady(v, w, g, s, n, i, j, data, pos) <==> ReadyParts(v, w, g, s, n, i, j, data, pos)
  {
    assert Unfold(OfBlockReady, 0);
  }

  /** The effect of one round of `fs_write`. */
  lemma ChunkEffect(v: Volume, w: Volume, g: Volume, s: nat, n: nat, i: Inode, j: Inode, data: Block, pos: nat, chunk: seq<byte>)
      returns (w': Volume)
    requires BlockReady(v, w, g, s, n, i, j, data, pos) && pos < MAX_FILE_SIZE && pos % 512 + |chunk| <= 512
    requires j.blocks[pos / 512] < MAX_DATA
    ensures Writing(w', s, n) && ChunkStored(w, w', s, n, i, Resized(j, pos + |chunk|), pos, chunk)
    ensures Pending(Reread(v.(data := v.data[j.blocks[pos / 512] := Patch(data, pos % 512, chunk)])), w', n, Resized(j, pos + |chunk|))
  {
    ReadyIs(v, w, g, s, n, i, j, data, pos);
    w' := ChunkWritten(v, g, s, n, pos, chunk);
    ChunkIs(w, g, w', s, n, i, j, pos, chunk);
  }

  lemma StoredIs(w: Volume, w': Volume, s: nat, n: nat, i: Inode, i': Inode, pos: nat, chunk: seq<byte>)
    requires s < ROOT_SLOTS && n < TABLE_INODES
    ensures ChunkStored(w, w', s, n, i, i', pos, chunk) <==> ChunkParts(w, w', s, n, i, i', pos, chunk)
  {
    assert Unfold(OfChunkStored, 0);
  }

  lemma NothingStored(v: Volume, s: nat, n: nat, pos: nat)
    requires Writing(v, s, n) && pos <= v.inodes[n].size
    ensures ChunkStored(v, v, s, n, v.inodes[n], v.inodes[n], pos, [])
  {
    ConsistentParts(v, {});
    FilesAt(v, s);
    var name := v.dir[s].name;
    assert Overwrite(Files(v)[name], pos, []) == Files(v)[name];
    assert Files(v)[name := Files(v)[name]] == Files(v);
    StoredIs(v, v, s, n, v.inodes[n], v.inodes[n], pos, []);
  }

  /** Two rounds in a row store both chunks. */
  lemma StoredTwice(u: Volume, v: Volume, w: Volume, s: nat, n: nat, i: Inode, j: Inode, k: Inode,
                    pos: nat, a: seq<byte>, next: nat, b: seq<byte>, c: seq<byte>)
    requires s < ROOT_SLOTS && n < TABLE_INODES && next == pos + |a| && c == a + b
    requires ChunkStored(u, v, s, n, i, j, pos, a) && ChunkStored(v, w, s, n, j, k, next, b)
    ensures ChunkStored(u, w, s, n, i, k, pos, c)
  {
    StoredIs(u, v, s, n, i, j, pos, a);
    StoredIs(v, w, s, n, j, k, next, b);
    UpdateTwice(u.inodes, n, j, k);
    Progress(Files(u), Files(v), Files(w), u.dir[s].name, pos, a, next, b, c);
    StoredIs(u, w, s, n, i, k, pos, c);
  }

  lemma WritingSize(w: Volume, s: nat, n: nat)
    requires Writing(w, s, n)
    ensures w.inodes[n].size <= MAX_FILE_SIZE
  {
    ConsistentParts(w, {});
    assert GoodInode(w.inodes[n]);
  }

  /** The slot whose entry names inode `n`. */
  ghost function SlotListing(v: Volume, n: nat): (s: nat)
    requires Listed(v, n)
    ensures s in UsedSlots(v) && v.dir[s].inode == n
  {
    var s :| s in UsedSlots(v) && v.dir[s].inode == n;
    s
  }

  /** One more round of `fs_write`, seen from the start of the call. */
  lemma RoundDone(u: Volume, v: Volume, w: Volume, s: nat, n: nat, i: Inode, j: Inode, k: Inode, start: nat, pos: nat, buf: seq<byte>, count: nat, next: nat, chunk: seq<byte>)
    requires Writing(w, s, n) && count <= next <= |buf| && chunk == buf[count..next] && pos == start + count
    requires ChunkStored(u, v, s, n, i, j, start, buf[..count]) && ChunkStored(v, w, s, n, j, k, pos, chunk)
    ensures ChunkStored(u, w, s, n, i, k, start, buf[..next])
    ensures w.inodes[n] == k && start + next <= k.size <= MAX_FILE_SIZE
  {
    assert buf[..count] + chunk == buf[..next];
    StoredTwice(u, v, w, s, n, i, j, k, start, buf[..count], pos, chunk, buf[..next]);
    StoredShape(v, w, s, n, j, k, pos, chunk);
    WritingSize(w, s, n);
  }

  /** The end of `fs_write`: the inode is written back with a new modification time. */
  lemma WriteBack(d: Volume, w: Volume, s: nat, n: nat, i: Inode, now: u32) returns (t: Volume)
    requires Writing(w, s, n) && Pending(d, w, n, i)
    ensures Reread(d.(inodes := d.inodes[n := i.(modified := now)])) == t
    ensures Consistent(t, {}) && Files(t) == Files(w) && t.dir == w.dir && t.ibits == w.ibits
    ensures t.inodes == w.inodes[n := i.(modified := now)]
  {
    t := w.(inodes := w.inodes[n := i.(modified := now)]);
    TouchKeeps(w, n, now);
    DirReadSlots(t);
    UpdateTwice(d.inodes, n, i, i.(modified := now));
  }

  lemma WriteFds(v: Volume, t: Volume, n: nat, files: seq<OpenFile>, fd: nat, count: nat)
    requires GoodFds(v, files) && fd < |files| && files[fd].inUse && files[fd].inode == n && 0 < n < TABLE_INODES
    requires t.dir == v.dir && v.inodes[n].size <= t.inodes[n].size && files[fd].position + count <= t.inodes[n].size
    requires forall m :: 0 <= m < TABLE_INODES && m != n ==> t.inodes[m] == v.inodes[m]
    ensures GoodFds(t, files[fd := Advanced(files[fd], count)])
  {
  }

  lemma StoredShape(v: Volume, w: Volume, s: nat, n: nat, i: Inode, i': Inode, pos: nat, chunk: seq<byte>)
    requires s < ROOT_SLOTS && n < TABLE_INODES && ChunkStored(v, w, s, n, i, i', pos, chunk)
    ensures w.dir == v.dir && w.ibits == v.ibits && w.inodes == v.inodes[n := i']
    ensures i.size <= i'.size && pos + |chunk| <= i'.size
  {
    StoredIs(v, w, s, n, i, i', pos, chunk);
  }

  lemma StoredFiles(v: Volume, w: Volume, s: nat, n: nat, i: Inode, i': Inode, pos: nat, chunk: seq<byte>)
    requires s < ROOT_SLOTS && n < TABLE_INODES && ChunkStored(v, w, s, n, i, i', pos, chunk)
    ensures v.dir[s].name in Files(v) && pos <= |Files(v)[v.dir[s].name]|
    ensures Files(w) == Files(v)[v.dir[s].name := Overwrite(Files(v)[v.dir[s].name], pos, chunk)]
  {
    StoredIs(v, w, s, n, i, i', pos, chunk);
  }

  /** A completed write, as far as the rest of the state is concerned. */
  lemma WriteDone(v: Volume, t: Volume, w: Volume, s: nat, n: nat, i': Inode, pos: nat, chunk: seq<byte>, now: u32, files: seq<OpenFile>, fd: nat)
    requires Small(v) && GoodFds(v, files) && fd < |files| && files[fd].inUse && files[fd].inode == n && 0 < n < TABLE_INODES
    requires s < ROOT_SLOTS && ChunkStored(v, w, s, n, v.inodes[n], i', pos, chunk) && files[fd].position == pos
    requires t.dir == w.dir && t.ibits == w.ibits && t.inodes == w.inodes[n := i'.(modified := now)]
    ensures Small(t) && GoodFds(t, files[fd := Advanced(files[fd], |chunk|)]) && t.dir == v.dir
  {
    StoredShape(v, w, s, n, v.inodes[n], i', pos, chunk);
    WriteFds(v, t, n, files, fd, |chunk|);
  }

  /** What `fs_write` does through descriptor `f`: the file that `f` refers to is overwritten at its
      position by the first `r` bytes of `buf`, as many as fit below 5120; nothing else changes. Folded. */
  ghost predicate Wrote(v: Volume, w: Volume, f: OpenFile, buf: seq<byte>, r: int) {
    forall k {:trigger Unfold(OfWrote, k)} :: Unfold(OfWrote, k) ==> WroteParts(v, w, f, buf, r)
  }

  ghost predicate WroteParts(v: Volume, w: Volume, f: OpenFile, buf: seq<byte>, r: int) {
    && Listed(v, f.inode) && f.position <= MAX_FILE_SIZE && r == Min(|buf|, MAX_FILE_SIZE - f.position) && w.dir == v.dir
    && var name := v.dir[SlotListing(v, f.inode)].name;
       && name in Files(v) && f.position <= |Files(v)[name]|
       && Files(w) == Files(v)[name := Overwrite(Files(v)[name], f.position, buf[..r])]
  }

  lemma WroteIs(v: Volume, w: Volume, f: OpenFile, buf: seq<byte>, r: int)
    ensures Wrote(v, w, f, buf, r) <==> WroteParts(v, w, f, buf, r)
  {
    assert Unfold(OfWrote, 0);
  }

  lemma PrefixCovers(i: Inode)
    requires GoodInode(i)
    ensures i.size <= 512 * BlockPrefix(i)
    ensures forall k :: 0 <= k < DIRECT ==> (i.blocks[k] != 0 <==> k < BlockPrefix(i))
  {
  }

  lemma ReadCountFits(i: Inode, pos: u32, size: u32)
    requires GoodInode(i) && pos < i.size
    ensures var limit := if Add32(pos, size) > i.size then i.size - pos else size;
            ReadCount(i, pos, size) == Min(limit, 512 * BlockPrefix(i) - pos)
    ensures pos + ReadCount(i, pos, size) <= MAX_FILE_SIZE
    ensures pos + size < WORD_LIMIT ==> pos + ReadCount(i, pos, size) <= i.size
  {
  }

  /** `m` bytes of a file's blocks, from byte `pos` on, whatever its size says. */
  function BytesFrom(v: Volume, i: Inode, pos: nat, m: nat): (r: seq<byte>)
    ensures |r| == m
  {
    seq<byte>(m, k requires 0 <= k < m => ByteOf(v, i, pos + k))
  }

  lemma BytesSplit(v: Volume, i: Inode, pos: nat, m: nat, n: nat)
    ensures BytesFrom(v, i, pos, m + n) == BytesFrom(v, i, pos, m) + BytesFrom(v, i, pos + m, n)
  {
  }

  /** Inside one block they are a slice of that block. */
  lemma ChunkBytes(v: Volume, i: Inode, pos: nat, m: nat)
    requires pos / 512 < DIRECT && i.blocks[pos / 512] < MAX_DATA && pos % 512 + m <= 512
    ensures v.data[i.blocks[pos / 512]][pos % 512..pos % 512 + m] == BytesFrom(v, i, pos, m)
  {
    var a, b := v.data[i.blocks[pos / 512]][pos % 512..pos % 512 + m], BytesFrom(v, i, pos, m);
    forall k | 0 <= k < m ensures a[k] == b[k] {
      assert pos == 512 * (pos / 512) + pos % 512;
      assert (pos + k) / 512 == pos / 512;
      assert (pos + k) % 512 == pos % 512 + k;
      assert b[k] == ByteOf(v, i, pos + k);
    }
  }

  /** Inside the file they are a slice of its contents. */
  lemma BytesOfFile(v: Volume, i: Inode, pos: nat, m: nat)
    requires pos + m <= i.size
    ensures BytesFrom(v, i, pos, m) == Contents(v, i)[pos..pos + m]
  {
  }

  lemma FdInode(v: Volume, f: OpenFile)
    requires Consistent(v, {}) && GoodFd(v, f)
    ensures f.inode < TABLE_INODES && GoodInode(v.inodes[f.inode])
  {
    ConsistentParts(v, {});
    if f.inode != 0 {
      var s :| s in UsedSlots(v) && v.dir[s].inode == f.inode;
    }
    assert Live(v, f.inode);
  }

  /** Bytes `a` and then bytes `b` written are `a + b` written. */
  lemma Progress(f: map<Name, seq<byte>>, g: map<Name, seq<byte>>, h: map<Name, seq<byte>>, name: Name,
                 pos: nat, a: seq<byte>, next: nat, b: seq<byte>, c: seq<byte>)
    requires name in f && pos <= |f[name]| && next == pos + |a| && c == a + b
    requires g == f[name := Overwrite(f[name], pos, a)] && next <= |g[name]| && h == g[name := Overwrite(g[name], next, b)]
    ensures h == f[name := Overwrite(f[name], pos, c)]
  {
    OverwriteTwice(f[name], pos, a, b);
  }

  /** The first descriptor not in use, or -1. */
  function FreeFd(files: seq<OpenFile>): (r: int)
    ensures -1 <= r < |files|
    ensures r >= 0 ==> !files[r].inUse && forall k :: 0 <= k < r ==> files[k].inUse
    ensures r == -1 ==> forall k :: 0 <= k < |files| ==> files[k].inUse
  {
    FreeFdFrom(files, 0)
  }

  function FreeFdFrom(files: seq<OpenFile>, k: nat): (r: int)
    requires k <= |files|
    ensures r == -1 || k <= r < |files|
    ensures r >= 0 ==> !files[r].inUse && forall j :: k <= j < r ==> files[j].inUse
    ensures r == -1 ==> forall j :: k <= j < |files| ==> files[j].inUse
    decreases |files| - k
  {
    if k == |files| then -1 else if !files[k].inUse then k else FreeFdFrom(files, k + 1)
  }

  /** What formatting leaves on the disk. */
  lemma FormatEffect(d: Disk, s: Superblock, now: u32) returns (v: Volume)
    requires SuperAt(d[SUPERBLOCK_BLOCK]) == s == FORMAT_SUPER && InodeAt(d, 0) == FreshInode(6, now)
    requires d[INODE_BITMAP_BLOCK] == SetBit(ZERO_BLOCK, 0) && d[DATA_BITMAP_BLOCK] == SetBit(ZERO_BLOCK, 0)
    ensures Mirrors(d, v) && Consistent(v, {}) && Small(v) && SavedSuper(d[0]) && Files(v) == map[]
    ensures Zeros(v.ibits) == s.freeInodes && Zeros(v.dbits) == s.freeBlocks && v.inodes[0].mode == 6
  {
    v := Decode(d);
    MirrorsDecode(d, v);
    MirroredBits(d, v);
    MirroredInode(d, v, 0);
    MirroredSlots(d, v);
    forall n | 0 <= n < MAX_DATA ensures TestBit(d[INODE_BITMAP_BLOCK], n) == TestBit(d[DATA_BITMAP_BLOCK], n) == (n == 0) {
      FirstBitOnly(d[INODE_BITMAP_BLOCK], n);
    }
    assert BitOf(6, 1);
    FormattedIsEmpty(v);
    SavedSuperIs(d[0]);
  }

  /** The volume a disk holds. */
  lemma Mounted(d: Disk) returns (v: Volume)
    ensures Mirrors(d, v)
  {
    v := Decode(d);
    MirrorsDecode(d, v);
  }

  /** A disk holds one volume. */
  lemma SameVolume(d: Disk, v: Volume, w: Volume)
    requires Mirrors(d, v) && Mirrors(d, w)
    ensures v == w
  {
    MirrorsDecode(d, v);
    MirrorsDecode(d, w);
  }

  lemma MountEffect(b: Block, v: Volume, files: seq<OpenFile>)
    requires Consistent(v, {}) && SavedSuper(b) && forall k :: 0 <= k < |files| ==> !files[k].inUse
    ensures GoodFds(v, files) && SuperAt(b).freeInodes == 511 && SuperAt(b).freeBlocks == 1980
    ensures Zeros(v.ibits) <= 511 && Zeros(v.dbits) <= 1980
  {
    GoodFdsAre(v, files);
    SavedSuperIs(b);
    BitsZero(v, {});
    ZerosBelow(v.ibits);
    ZerosBelow(v.dbits);
  }
}
