/** WitFS: the file system calls, over the cached bit maps, the superblock, the table of open
    files and the RAM disk. */
module WitFs {
  import opened Words
  import opened Layout
  import opened Volumes
  import opened VolumeBounds
  import opened VolumeSteps
  import opened FileSteps
  import opened RamDisks

  /** The number of the first clear bit, or -1: first fit. */
  method BitmapFindFree(bm: array<byte>, maxBits: nat) returns (r: int)
    requires maxBits <= 8 * bm.Length
    ensures -1 <= r < maxBits
    ensures r == -1 ==> forall k :: 0 <= k < maxBits ==> TestBit(bm[..], k)
    ensures r >= 0 ==> !TestBit(bm[..], r) && forall k :: 0 <= k < r ==> TestBit(bm[..], k)
  {
    for i := 0 to maxBits
      invariant forall k :: 0 <= k < i ==> TestBit(bm[..], k)
    {
      if !BitOf(bm[i / 8], i % 8) {
        return i;
      }
    }
    return -1;
  }

  method BitmapSet(bm: array<byte>, bit: nat)
    requires bit < 8 * bm.Length
    modifies bm
    ensures bm[..] == SetBit(old(bm[..]), bit)
  {
    ByteBit(bm[bit / 8], bit % 8);
    bm[bit / 8] := WithBit(bm[bit / 8], bit % 8);
  }

  method BitmapClear(bm: array<byte>, bit: nat)
    requires bit < 8 * bm.Length
    modifies bm
    ensures bm[..] == ClearBit(old(bm[..]), bit)
  {
    ByteBit(bm[bit / 8], bit % 8);
    bm[bit / 8] := WithoutBit(bm[bit / 8], bit % 8);
  }

  /** The scan of one directory block: the first used entry with this name, or -1. */
  method FindEntry(data: Block, name: Name) returns (r: int)
    ensures -1 <= r < ENTRIES_PER_BLOCK
    ensures forall i :: 0 <= i < (if r == -1 then ENTRIES_PER_BLOCK else r) ==> !EntryMatches(data, i, name)
    ensures r >= 0 ==> EntryMatches(data, r, name)
  {
    for i := 0 to ENTRIES_PER_BLOCK
      invariant forall j :: 0 <= j < i ==> !EntryMatches(data, j, name)
    {
      if EntryInode(data, i) != 0 && EntryName(data, i) == name {
        return i;
      }
    }
    return -1;
  }

  /** The scan for an unused entry: the first one of the block, or -1. */
  method FindFreeEntry(data: Block) returns (r: int)
    ensures -1 <= r < ENTRIES_PER_BLOCK
    ensures forall i :: 0 <= i < (if r == -1 then ENTRIES_PER_BLOCK else r) ==> EntryInode(data, i) != 0
    ensures r >= 0 ==> EntryInode(data, r) == 0
  {
    for i := 0 to ENTRIES_PER_BLOCK
      invariant forall j :: 0 <= j < i ==> EntryInode(data, j) != 0
    {
      if EntryInode(data, i) == 0 {
        return i;
      }
    }
    return -1;
  }

  /** `memset` to zero and then bit 0. */
  method FillFirstBit(bm: array<byte>)
    requires bm.Length == 512
    modifies bm
    ensures bm[..] == SetBit(ZERO_BLOCK, 0)
  {
    forall k | 0 <= k < bm.Length {
      bm[k] := 0;
    }
    assert bm[..] == ZERO_BLOCK;
    BitmapSet(bm, 0);
  }

  class FileSystem {
    const disk: RamDisk
    var superblock: Superblock
    var inodeBitmap: array?<byte>
    var dataBitmap: array?<byte>
    var openFiles: seq<OpenFile>
    var initialized: bool
    /** The decoded disk. */
    ghost var vol: Volume

    constructor (disk: RamDisk)
      ensures this.disk == disk && !initialized && inodeBitmap == null && dataBitmap == null
      ensures openFiles == Repeat(MAX_OPEN, CLOSED)
    {
      this.disk := disk;
      superblock := FORMAT_SUPER.(magic := 0, freeInodes := 0, freeBlocks := 0);
      inodeBitmap, dataBitmap := null, null;
      openFiles := Repeat(MAX_OPEN, CLOSED);
      initialized := false;
    }

    // ------------------------------------------------------------ state predicates

    /** The buffers exist, do not overlap, and the cached bit maps equal disk blocks 1 and 2. */
    ghost predicate Wired()
      reads this, disk, disk.data, inodeBitmap, dataBitmap
    {
      && disk.Valid() && disk.initialized
      && inodeBitmap != null && dataBitmap != null && inodeBitmap != dataBitmap
      && inodeBitmap != disk.data && dataBitmap != disk.data
      && inodeBitmap[..] == disk.blocks[INODE_BITMAP_BLOCK]
      && dataBitmap[..] == disk.blocks[DATA_BITMAP_BLOCK]
      && Mirrors(disk.blocks, vol)
      && |openFiles| == MAX_OPEN
    }

    /** How far the superblock's free counters are above the clear bits. */
    ghost function InodeDrift(): int
      reads this
    {
      superblock.freeInodes - Zeros(vol.ibits)
    }

    ghost function BlockDrift(): int
      reads this
    {
      superblock.freeBlocks - Zeros(vol.dbits)
    }

    ghost predicate Counted()
      reads this
    {
      0 <= InodeDrift() <= 512 && 0 <= BlockDrift() <= 1981
    }

    /** Everything except the open files: the caches, the invariant, and the saved superblock. */
    ghost predicate Sound()
      reads this, disk, disk.data, inodeBitmap, dataBitmap
    {
      Wired() && Counted() && Consistent(vol, {}) && Small(vol) && SavedSuper(disk.blocks[0])
    }

    ghost predicate Valid()
      reads this, disk, disk.data, inodeBitmap, dataBitmap
    {
      && |openFiles| == MAX_OPEN
      && (if initialized then Sound() && GoodFds(vol, openFiles)
          else forall k :: 0 <= k < MAX_OPEN ==> !openFiles[k].inUse)
    }

    // ------------------------------------------------------------ inodes and bit maps

    method ReadInode(n: u32) returns (ok: bool, i: Inode)
      requires disk.Valid() && disk.initialized
      ensures ok == (n < MAX_INODES)
      ensures ok ==> i == InodeAt(disk.blocks, n)
    {
      if n >= MAX_INODES {
        return false, EMPTY_INODE;
      }
      var _, temp := disk.ReadBlock(InodeBlock(n));
      return true, InodeIn(temp, n);
    }

    method WriteInode(n: u32, i: Inode) returns (ok: bool)
      requires Wired()
      modifies `vol, disk`blocks, disk.data
      ensures Wired() && ok == (n < MAX_INODES)
      ensures disk.blocks == if ok then PutInode(old(disk.blocks), n, i) else old(disk.blocks)
      ensures disk.blocks[0] == old(disk.blocks[0])
      ensures n < TABLE_INODES ==> var v: Volume := old(vol); vol == Reread(v.(inodes := v.inodes[n := i]))
    {
      if n >= MAX_INODES {
        return false;
      }
      MirrorPutInode(disk.blocks, vol, n, i);
      var _, temp := disk.ReadBlock(InodeBlock(n));
      vol := AfterInodeWrite(disk.blocks, vol, n, i);
      var _ := disk.WriteBlock(InodeBlock(n), PatchInode(temp, n, i));
      return true;
    }

    method ReadData(b: u32) returns (data: Block)
      requires Wired() && b < MAX_DATA
      ensures data == vol.data[b]
    {
      MirroredData(disk.blocks, vol, b);
      var _, temp := disk.ReadBlock(DATA_START + b);
      return temp;
    }

    method WriteData(b: u32, data: Block)
      requires Wired() && b < MAX_DATA
      modifies `vol, disk`blocks, disk.data
      ensures Wired() && disk.blocks[0] == old(disk.blocks[0])
      ensures var v: Volume := old(vol); vol == Reread(v.(data := v.data[b := data]))
    {
      MirrorDataWrite(disk.blocks, vol, b, data);
      var _ := disk.WriteBlock(DATA_START + b, data);
      vol := Reread(vol.(data := vol.data[b := data]));
    }

    method AllocInode() returns (n: int)
      requires Wired() && Counted()
      modifies `superblock, `vol, inodeBitmap, disk`blocks, disk.data
      ensures Wired() && disk.blocks[0] == old(disk.blocks[0])
      ensures -1 <= n < MAX_INODES
      ensures n == -1 ==> vol == old(vol) && forall m :: 0 <= m < MAX_INODES ==> vol.ibits[m]
      ensures n >= 0 ==> !old(vol).ibits[n] && forall m :: 0 <= m < n ==> old(vol).ibits[m]
      ensures n >= 0 ==> var v: Volume := old(vol); vol == v.(ibits := v.ibits[n := true])
      ensures InodeDrift() == old(InodeDrift()) && BlockDrift() == old(BlockDrift())
    {
      MirroredBits(disk.blocks, vol);
      n := BitmapFindFree(inodeBitmap, MAX_INODES);
      if n != -1 {
        BitmapSet(inodeBitmap, n);
        MirrorInodeBit(disk.blocks, vol, n, true);
        FlipBit(vol.ibits, n, true);
        vol := vol.(ibits := vol.ibits[n := true]);
        superblock := superblock.(freeInodes := Add32(superblock.freeInodes, WORD_LIMIT - 1));
        var _ := disk.WriteBlock(INODE_BITMAP_BLOCK, inodeBitmap[..]);
      }
    }

    /** Clearing a bit that is clear already still counts up. */
    method FreeInode(n: u32)
      requires Wired() && Counted() && n < MAX_INODES
      modifies `superblock, `vol, inodeBitmap, disk`blocks, disk.data
      ensures Wired() && disk.blocks[0] == old(disk.blocks[0])
      ensures var w: Volume := old(vol); vol == w.(ibits := w.ibits[n := false])
      ensures InodeDrift() == old(InodeDrift()) + (if old(vol).ibits[n] then 0 else 1) && BlockDrift() == old(BlockDrift())
    {
      BitmapClear(inodeBitmap, n);
      MirrorInodeBit(disk.blocks, vol, n, false);
      if vol.ibits[n] {
        FlipBit(vol.ibits, n, false);
      } else {
        assert vol.ibits[n := false] == vol.ibits;
      }
      ZerosBound(vol.ibits);
      vol := vol.(ibits := vol.ibits[n := false]);
      superblock := superblock.(freeInodes := Add32(superblock.freeInodes, 1));
      var _ := disk.WriteBlock(INODE_BITMAP_BLOCK, inodeBitmap[..]);
    }

    method AllocDataBlock() returns (b: int)
      requires Wired() && Counted()
      modifies `superblock, `vol, dataBitmap, disk`blocks, disk.data
      ensures Wired() && disk.blocks[0] == old(disk.blocks[0])
      ensures -1 <= b < MAX_DATA
      ensures b == -1 ==> vol == old(vol) && forall m :: 0 <= m < MAX_DATA ==> vol.dbits[m]
      ensures b >= 0 ==> !old(vol).dbits[b] && forall m :: 0 <= m < b ==> old(vol).dbits[m]
      ensures b >= 0 ==> var v: Volume := old(vol); vol == v.(dbits := v.dbits[b := true])
      ensures InodeDrift() == old(InodeDrift()) && BlockDrift() == old(BlockDrift())
    {
      MirroredBits(disk.blocks, vol);
      b := BitmapFindFree(dataBitmap, MAX_DATA);
      if b != -1 {
        BitmapSet(dataBitmap, b);
        MirrorDataBit(disk.blocks, vol, b, true);
        FlipBit(vol.dbits, b, true);
        vol := vol.(dbits := vol.dbits[b := true]);
        superblock := superblock.(freeBlocks := Add32(superblock.freeBlocks, WORD_LIMIT - 1));
        var _ := disk.WriteBlock(DATA_BITMAP_BLOCK, dataBitmap[..]);
      }
    }

    /** Clearing a bit that is clear already still counts up. */
    method FreeDataBlock(b: u32)
      requires Wired() && Counted() && b < MAX_DATA
      modifies `superblock, `vol, dataBitmap, disk`blocks, disk.data
      ensures Wired() && disk.blocks[0] == old(disk.blocks[0])
      ensures var w: Volume := old(vol); vol == w.(dbits := w.dbits[b := false])
      ensures BlockDrift() == old(BlockDrift()) + (if old(vol).dbits[b] then 0 else 1) && InodeDrift() == old(InodeDrift())
    {
      BitmapClear(dataBitmap, b);
      MirrorDataBit(disk.blocks, vol, b, false);
      if vol.dbits[b] {
        FlipBit(vol.dbits, b, false);
      } else {
        assert vol.dbits[b := false] == vol.dbits;
      }
      ZerosBound(vol.dbits);
      vol := vol.(dbits := vol.dbits[b := false]);
      superblock := superblock.(freeBlocks := Add32(superblock.freeBlocks, 1));
      var _ := disk.WriteBlock(DATA_BITMAP_BLOCK, dataBitmap[..]);
    }

    // ------------------------------------------------------------ the directory

    /** The scan of the root directory that lookup and removal share: the block and entry numbers
        of the entry called `name`, or -1. `g` may differ from the volume in its bit maps. */
    method ScanRoot(root: Inode, name: Name, ghost g: Volume) returns (k: int, i: int, data: Block)
      requires Wired() && Consistent(g, {}) && DirRead(g) && vol.data == g.data && root == g.inodes[0]
      ensures -1 <= k && (k == -1 <==> name !in Names(g))
      ensures k >= 0 ==> k < DIRECT && 0 <= i < 16 && 0 < root.blocks[k] < MAX_DATA && data == g.data[root.blocks[k]]
      ensures k >= 0 ==> SlotNamed(g, name) == 16 * k + i && EntryInode(data, i) == Lookup(g, name)
    {
      ConsistentParts(g, {});
      RootShape(g, {});
      k := 0;
      while k < DIRECT && root.blocks[k] != 0
        invariant 0 <= k <= DIRECT
        invariant NoMatchBelow(g, name, 16 * k)
      {
        data := ReadData(root.blocks[k]);
        i := FindEntry(data, name);
        if i >= 0 {
          BlockFound(g, name, k, i);
          return k, i, data;
        }
        BlockScanned(g, name, k, 16);
        k := k + 1;
      }
      LookupExhausted(g, name, k);
      return -1, -1, ZERO_BLOCK;
    }

    method PathLookup(path: seq<byte>) returns (r: int)
      requires Wired() && Consistent(vol, {})
      ensures r == if NameOf(path) == [] then 0 else Lookup(vol, NameOf(path))
      ensures path == [] || path == [47] ==> r == 0
      ensures var name := if path != [] && path[0] == 47 then path[1..] else path;
              name != [] ==> FoundAt(vol, name, r)
    {
      var name := NameOf(path);
      LookupExact(vol, name);
      if name == [] {
        return 0;
      }
      var _, root := ReadInode(0);
      MirroredInode(disk.blocks, vol, 0);
      MirroredSlots(disk.blocks, vol);
      if !BitOf(root.mode, 1) {
        ConsistentParts(vol, {});
        assert false;
        return -1;
      }
      var k, i, data := ScanRoot(root, name, vol);
      if k >= 0 {
        return EntryInode(data, i);
      }
      return -1;
    }

    /** Writes back a directory block and the root inode; `g` is the volume with the block in place. */
    method WriteEntry(root: Inode, k: nat, i: nat, data: Block, n: u32, name: Name, now: u32, ghost g: Volume)
      requires Wired() && Consistent(g, {n}) && DirRead(g) && k < DIRECT && i < 16 && 0 !in name && n != 0
      requires root == g.inodes[0] && 0 < root.blocks[k] < MAX_DATA && SameBut(vol, g, root.blocks[k], 0)
      requires data == PutEntry(g.data[root.blocks[k]], i, n, name)
      modifies `vol, disk`blocks, disk.data
      ensures Wired() && disk.blocks[0] == old(disk.blocks[0])
      ensures vol == Enter(g, 16 * k + i, n, name, now)
    {
      EnterWrites(vol, g, k, i, n, name, now);
      WriteData(root.blocks[k], data);
      var _ := WriteInode(0, root.(size := Add32(root.size, 32), modified := now));
    }

    /** The directory block behind root pointer `k`, allocated and zeroed if there is none yet;
        `g` is the volume as it will be once the root inode is written back. */
    method DirectoryBlock(root: Inode, k: nat, ghost n: nat) returns (root': Inode, data: Block, ghost g: Volume)
      requires Wired() && Counted() && Consistent(vol, {n}) && DirRead(vol) && k < DIRECT && root == vol.inodes[0]
      requires root.blocks[k] < MAX_DATA && forall s :: 0 <= s < 16 * k ==> vol.dir[s].inode != 0
      modifies `superblock, `vol, dataBitmap, disk`blocks, disk.data
      ensures Wired() && disk.blocks[0] == old(disk.blocks[0])
      ensures InodeDrift() == old(InodeDrift()) && BlockDrift() == old(BlockDrift())
      ensures Consistent(g, {n}) && DirRead(g) && root' == g.inodes[0]
      ensures 0 < root'.blocks[k] < MAX_DATA && data == g.data[root'.blocks[k]] && SameBut(vol, g, root'.blocks[k], 0)
      ensures g.dir == old(vol).dir && g.ibits == old(vol).ibits && g.inodes[1..] == old(vol).inodes[1..]
      ensures Files(g) == Files(old(vol)) && FileAt(g, n) == FileAt(old(vol), n)
      ensures g.dbits == old(vol).dbits || Takes(old(vol).dbits, g.dbits)
      ensures old(vol).dir[16 * k].inode != 0 ==> g == vol == old(vol) && superblock == old(superblock)
    {
      if root.blocks[k] == 0 {
        RoomLeft(vol, {n});
        ghost var v := vol;
        var b := AllocDataBlock();
        if b == -1 {
          assert false;
          return root, ZERO_BLOCK, vol;
        }
        GrowRoot(v, n, k, b);
        UnbackedSlots(v, n, k);
        g := Grow(v, 0, k, b);
        root' := root.(blocks := root.blocks[k := b]);
        data := ZERO_BLOCK;
        assert vol.data[b := ZERO_BLOCK] == g.data[b := ZERO_BLOCK];
        assert vol.inodes[0 := EMPTY_INODE] == g.inodes[0 := EMPTY_INODE];
      } else {
        g := vol;
        root' := root;
        data := ReadData(root.blocks[k]);
      }
    }

    /** One round of `dir_add_entry`: use a free entry of directory block `k` if it has one. */
    method TryBlock(root: Inode, k: nat, name: Name, n: u32, now: u32) returns (done: bool)
      requires Wired() && Counted() && Consistent(vol, {n}) && 0 < n < TABLE_INODES && name != [] && 0 !in name
      requires k < DIRECT && root == vol.inodes[0] && forall s :: 0 <= s < 16 * k ==> vol.dir[s].inode != 0
      modifies `superblock, `vol, dataBitmap, disk`blocks, disk.data
      ensures Wired() && disk.blocks[0] == old(disk.blocks[0])
      ensures InodeDrift() == old(InodeDrift()) && BlockDrift() == old(BlockDrift())
      ensures done ==> |UsedSlots(old(vol))| != ROOT_SLOTS && Added(old(vol), vol, n, name)
      ensures !done ==> vol == old(vol) && superblock == old(superblock)
      ensures !done ==> forall s :: 16 * k <= s < 16 * k + 16 ==> vol.dir[s].inode != 0
    {
      ghost var v := vol;
      MirroredSlots(disk.blocks, vol);
      RootShape(vol, {n});
      var root', data;
      ghost var g;
      root', data, g := DirectoryBlock(root, k, n);
      done := UseBlock(root', k, data, name, n, now, v, g);
    }

    /** The entry goes into the first unused place of directory block `k`, if it has one. */
    method UseBlock(root: Inode, k: nat, data: Block, name: Name, n: u32, now: u32, ghost v: Volume, ghost g: Volume) returns (done: bool)
      requires Wired() && Consistent(g, {n}) && DirRead(g) && 0 < n < TABLE_INODES && name != [] && 0 !in name && k < DIRECT
      requires root == g.inodes[0] && 0 < root.blocks[k] < MAX_DATA && data == g.data[root.blocks[k]]
      requires SameBut(vol, g, root.blocks[k], 0)
      requires g.dir == v.dir && g.ibits == v.ibits && g.inodes[1..] == v.inodes[1..]
      requires Files(g) == Files(v) && FileAt(g, n) == FileAt(v, n) && (g.dbits == v.dbits || Takes(v.dbits, g.dbits))
      modifies `vol, disk`blocks, disk.data
      ensures Wired() && disk.blocks[0] == old(disk.blocks[0]) && vol.ibits == old(vol.ibits) && vol.dbits == old(vol.dbits)
      ensures done ==> |UsedSlots(v)| != ROOT_SLOTS && Added(v, vol, n, name)
      ensures !done ==> vol == old(vol) && forall s :: 16 * k <= s < 16 * k + 16 ==> v.dir[s].inode != 0
    {
      var i := FindFreeEntry(data);
      BlockUnused(g, k, i);
      done := i >= 0;
      if done {
        ghost var s := 16 * k + i;
        assert s / 16 == k;
        WriteEntry(root, k, i, PutEntry(data, i, n, name), n, name, now, g);
        EntryDone(v, g, s, n, name, now);
      }
    }

    /** Adds an entry to the root directory; `n` is a live inode that has none yet. */
    method DirAddEntry(name: Name, n: u32, now: u32) returns (r: int)
      requires Wired() && Counted() && Consistent(vol, {n}) && 0 < n < TABLE_INODES && name != [] && 0 !in name
      modifies `superblock, `vol, dataBitmap, disk`blocks, disk.data
      ensures Wired() && disk.blocks[0] == old(disk.blocks[0])
      ensures InodeDrift() == old(InodeDrift()) && BlockDrift() == old(BlockDrift())
      ensures r == if |UsedSlots(old(vol))| == ROOT_SLOTS then -1 else 0
      ensures r == -1 ==> vol == old(vol) && superblock == old(superblock)
      ensures r == 0 ==> Added(old(vol), vol, n, name)
    {
      ghost var v := vol;
      var _, root := ReadInode(0);
      MirroredInode(disk.blocks, vol, 0);
      if !BitOf(root.mode, 1) {
        ConsistentParts(vol, {n});
        assert false;
        return -1;
      }
      for k := 0 to DIRECT
        invariant Wired() && vol == v && superblock == old(superblock) && disk.blocks[0] == old(disk.blocks[0])
        invariant forall s :: 0 <= s < 16 * k ==> v.dir[s].inode != 0
      {
        var done := TryBlock(root, k, name, n, now);
        if done {
          return 0;
        }
      }
      UsedSlotsBound(v);
      return -1;
    }

    method EraseEntry(root: Inode, k: nat, i: nat, data: Block, now: u32, ghost g: Volume, ghost s: nat)
      requires Wired() && Consistent(g, {}) && DirRead(g) && k < DIRECT && i < 16
      requires vol.data == g.data && vol.inodes == g.inodes && root == g.inodes[0] && 0 < root.blocks[k] < MAX_DATA
      requires data == ClearEntry(g.data[root.blocks[k]], i) && s == 16 * k + i
      modifies `vol, disk`blocks, disk.data
      ensures Wired() && disk.blocks[0] == old(disk.blocks[0])
      ensures g.inodes[0].blocks[s / 16] < MAX_DATA
      ensures vol == Leave(g, s, now).(ibits := old(vol).ibits, dbits := old(vol).dbits)
    {
      LeaveWrites(vol, g, k, i, now);
      WriteData(root.blocks[k], data);
      var _ := WriteInode(0, root.(size := Add32(root.size, 0xFFFF_FFE0), modified := now));
    }

    /** Clears the entry of `name`, if there is one; `g` is the volume before the file's blocks and inode
        were freed. */
    method DirRemoveEntry(name: Name, now: u32, ghost g: Volume) returns (r: int)
      requires Wired() && Consistent(g, {}) && DirRead(g) && vol.data == g.data && vol.inodes == g.inodes
      modifies `vol, disk`blocks, disk.data
      ensures Wired() && disk.blocks[0] == old(disk.blocks[0])
      ensures r == if name in Names(g) then 0 else -1
      ensures r == -1 ==> vol == old(vol)
      ensures r == 0 ==> g.inodes[0].blocks[SlotNamed(g, name) / 16] < MAX_DATA
                         && vol == Leave(g, SlotNamed(g, name), now).(ibits := old(vol).ibits, dbits := old(vol).dbits)
    {
      var _, root := ReadInode(0);
      MirroredInode(disk.blocks, vol, 0);
      var k, i, data := ScanRoot(root, name, g);
      if k == -1 {
        return -1;
      }
      EraseEntry(root, k, i, ClearEntry(data, i), now, g, SlotNamed(g, name));
      return 0;
    }

    // ------------------------------------------------------------ create and unlink

    /** The first half of `fs_create`: an inode, and for a directory a zeroed block, with no name yet. */
    method MakeInode(kind: u32, now: u32) returns (n: u32, i: Inode)
      requires Sound()
      modifies `superblock, `vol, inodeBitmap, dataBitmap, disk`blocks, disk.data
      ensures Wired() && disk.blocks[0] == old(disk.blocks[0])
      ensures InodeDrift() == old(InodeDrift()) && BlockDrift() == old(BlockDrift())
      ensures 0 < n < TABLE_INODES && Consistent(vol, {n}) && vol.dir == old(vol).dir
      ensures Made(old(vol), vol, n, i, kind)
    {
      ghost var v := vol;
      MirroredSlots(disk.blocks, vol);
      n := TakeInode();
      i := FreshInode(WithDefaultPerms(kind), now);
      FileInode(v, n, i);
      if kind == TYPE_DIR {
        i := AddDirectoryBlock(n, i, v);
      } else {
        MadeFile(v, NewInode(v, n, i), n, i, kind);
      }
      var _ := WriteInode(n, i);
    }

    /** An inode number: there always is one, and it lies in the table. */
    method TakeInode() returns (n: u32)
      requires Sound()
      modifies `superblock, `vol, inodeBitmap, disk`blocks, disk.data
      ensures Wired() && disk.blocks[0] == old(disk.blocks[0])
      ensures InodeDrift() == old(InodeDrift()) && BlockDrift() == old(BlockDrift())
      ensures 0 < n < TABLE_INODES && !old(vol).ibits[n] && n <= 1 + |UsedSlots(old(vol))|
      ensures var v: Volume := old(vol); vol == v.(ibits := v.ibits[n := true])
    {
      ghost var v := vol;
      RoomLeft(v, {});
      n := 0;
      var a := AllocInode();
      if a == -1 {
        assert false;
        return;
      }
      n := a;
      FirstFreeInode(v, {}, n);
      UsedSlotsBound(v);
      BitsZero(v, {});
    }

    /** A directory's first block, allocated, zeroed and entered in its inode; `v` is the volume before. */
    method AddDirectoryBlock(n: u32, j: Inode, ghost v: Volume) returns (i: Inode)
      requires Wired() && Counted() && Consistent(v, {}) && DirRead(v) && 0 < n < TABLE_INODES && !v.ibits[n] && Fresh(j)
      requires j.mode == WithDefaultPerms(TYPE_DIR)
      requires vol == v.(ibits := v.ibits[n := true]) && n <= 1 + |UsedSlots(v)|
      modifies `superblock, `vol, dataBitmap, disk`blocks, disk.data
      ensures Wired() && disk.blocks[0] == old(disk.blocks[0])
      ensures InodeDrift() == old(InodeDrift()) && BlockDrift() == old(BlockDrift())
      ensures var w := Reread(vol.(inodes := vol.inodes[n := i]));
              Consistent(w, {n}) && w.dir == v.dir && Made(v, w, n, i, TYPE_DIR)
    {
      FileInode(v, n, j);
      RoomLeft(NewInode(v, n, j), {n});
      i := j;
      var b := AllocDataBlock();
      if b == -1 {
        assert false;
        return;
      }
      DirInode(v, n, j, b);
      MadeDir(v, Grow(NewInode(v, n, j), n, 0, b), n, j, b, TYPE_DIR);
      i := j.(blocks := j.blocks[0 := b]);
      WriteData(b, ZERO_BLOCK);
    }

    /** The failure path of `fs_create`: gives back what `MakeInode` took from volume `v`. */
    method UndoCreate(n: u32, i: Inode, kind: u32, ghost v: Volume)
      requires Wired() && Counted() && Consistent(vol, {n}) && 0 < n < TABLE_INODES && SavedSuper(disk.blocks[0])
      requires Consistent(v, {}) && Small(v) && GoodFds(v, openFiles) && Made(v, vol, n, i, kind)
      modifies `superblock, `vol, inodeBitmap, dataBitmap, disk`blocks, disk.data
      ensures Sound() && GoodFds(vol, openFiles)
      ensures InodeDrift() == old(InodeDrift()) && BlockDrift() == old(BlockDrift())
      ensures vol.ibits == v.ibits && vol.dbits == v.dbits && Files(vol) == Files(v) && Kept(v, vol, {})
    {
      MadeIs(v, vol, n, i, kind);
      ghost var g := vol;
      MirroredSlots(disk.blocks, vol);
      CreateUndone(vol, n, i.blocks[0]);
      RestoredBits(v, vol, n, i.blocks[0], kind == TYPE_DIR);
      FreeInode(n);
      if kind == TYPE_DIR && i.blocks[0] != 0 {
        FreeDataBlock(i.blocks[0]);
      }
      UndoneFds(v, g, vol, n, openFiles);
      KeptSame(v, vol);
    }

    /** A name of more than 27 characters whose first 27 are a file already collides with it: the create
        succeeds and leaves an inconsistent volume. In all other cases it adds one empty file, or fails
        and changes nothing that counts. */
    method FsCreate(path: seq<byte>, kind: u32, now: u32) returns (r: int)
      requires Valid() && 0 !in path
      modifies `superblock, `vol, inodeBitmap, dataBitmap, disk`blocks, disk.data
      ensures r == if old(initialized) && NameOf(path) != [] && NameOf(path) !in Files(old(vol)) && |Files(old(vol))| < ROOT_SLOTS
                   then 0 else -1
      ensures r == -1 || Stored(NameOf(path)) !in Files(old(vol)) ==> Valid()
      ensures r == 0 && Stored(NameOf(path)) in Files(old(vol)) ==> Wired() && !Consistent(vol, {})
      ensures r == 0 && Stored(NameOf(path)) !in Files(old(vol)) ==>
                Files(vol) == Files(old(vol))[Stored(NameOf(path)) := []] && Kept(old(vol), vol, {})
      ensures r == -1 && old(initialized) ==>
                && Files(vol) == Files(old(vol)) && vol.ibits == old(vol).ibits && vol.dbits == old(vol).dbits
                && superblock.freeInodes == old(superblock).freeInodes && superblock.freeBlocks == old(superblock).freeBlocks
                && Kept(old(vol), vol, {})
      ensures r == 0 ==> CreateTakes(old(vol), vol, kind)
      ensures old(initialized) ==> InodeDrift() == old(InodeDrift()) && BlockDrift() == old(BlockDrift())
    {
      if !initialized {
        return -1;
      }
      KeptSame(vol, vol);
      var existing := PathLookup(path);
      if existing >= 0 {
        return -1;
      }
      assert NameOf(path) !in Names(vol) && NameOf(path) != [] && 0 !in NameOf(path);
      r := CreateNew(NameOf(path), kind, now);
    }

    /** `fs_create` once the name is known to be new. */
    method CreateNew(name: Name, kind: u32, now: u32) returns (r: int)
      requires Sound() && GoodFds(vol, openFiles) && 0 !in name && name != []
      modifies `superblock, `vol, inodeBitmap, dataBitmap, disk`blocks, disk.data
      ensures InodeDrift() == old(InodeDrift()) && BlockDrift() == old(BlockDrift())
      ensures r == if |Files(old(vol))| < ROOT_SLOTS then 0 else -1
      ensures r == 0 && Stored(name) in Names(old(vol)) ==> Wired() && !Consistent(vol, {})
      ensures r == -1 || Stored(name) !in Names(old(vol)) ==> Sound() && GoodFds(vol, openFiles) && Kept(old(vol), vol, {})
      ensures r == 0 && Stored(name) !in Names(old(vol)) ==> Files(vol) == Files(old(vol))[Stored(name) := []]
      ensures r == -1 ==> Files(vol) == Files(old(vol)) && vol.ibits == old(vol).ibits && vol.dbits == old(vol).dbits
      ensures r == -1 ==> superblock.freeInodes == old(superblock).freeInodes && superblock.freeBlocks == old(superblock).freeBlocks
      ensures r == 0 ==> CreateTakes(old(vol), vol, kind)
    {
      ghost var v := vol;
      SlotCount(v);
      UsedSlotsBound(v);
      var n, i := MakeInode(kind, now);
      ghost var g := vol;
      SameSlots(v, g);
      r := DirAddEntry(name, n, now);
      if r < 0 {
        UndoCreate(n, i, kind, v);
        return -1;
      }
      CreateBits(v, g, vol, n, i, kind, name);
      if Stored(name) in Names(v) {
        AddedCollides(g, vol, n, name);
      } else {
        CreateDone(v, g, vol, n, i, kind, name, openFiles);
      }
    }

    /** Frees the blocks of inode `n` up to its first null pointer. */
    method FreeFileBlocks(i: Inode, ghost n: nat)
      requires Wired() && Counted() && Consistent(vol, {}) && n < TABLE_INODES && Live(vol, n) && i == vol.inodes[n]
      modifies `superblock, `vol, dataBitmap, disk`blocks, disk.data
      ensures Wired() && disk.blocks[0] == old(disk.blocks[0])
      ensures InodeDrift() == old(InodeDrift()) && BlockDrift() == old(BlockDrift())
      ensures vol == old(vol).(dbits := Release(old(vol), n).dbits)
    {
      ghost var v := vol;
      ConsistentParts(v, {});
      assert Freed(v.dbits, i.blocks[..0]) == v.dbits;
      var k := 0;
      while k < DIRECT && i.blocks[k] != 0
        invariant 0 <= k <= DIRECT && Wired() && Counted() && disk.blocks[0] == old(disk.blocks[0])
        invariant InodeDrift() == old(InodeDrift()) && BlockDrift() == old(BlockDrift())
        invariant vol == v.(dbits := Freed(v.dbits, i.blocks[..k]))
      {
        FreedNext(v, n, k);
        FreeDataBlock(i.blocks[k]);
        k := k + 1;
      }
      FreedAll(v, n, k);
    }

    /** Removes exactly the name. The file system stays valid if and only if the file was not open: the
        volume is consistent either way, but a descriptor on it is left on a free inode. Unlinking the
        root frees inode 0 and leaves no file system. */
    method FsUnlink(path: seq<byte>, now: u32) returns (r: int)
      requires Valid() && 0 !in path
      modifies `superblock, `vol, inodeBitmap, dataBitmap, disk`blocks, disk.data
      ensures r == if old(initialized) && (NameOf(path) == [] || NameOf(path) in Files(old(vol))) then 0 else -1
      ensures r == -1 ==> Valid() && vol == old(vol) && superblock == old(superblock)
      ensures r == 0 && NameOf(path) == [] ==> Wired() && vol == Release(old(vol), 0) && !Consistent(vol, {})
      ensures r == 0 && NameOf(path) != [] ==>
                var n := Lookup(old(vol), NameOf(path));
                && Sound() && (Valid() <==> NoneOn(openFiles, n))
                && Files(vol) == Files(old(vol)) - {NameOf(path)} && Kept(old(vol), vol, {NameOf(path)})
                && 0 < n < TABLE_INODES && vol.ibits == old(vol).ibits[n := false]
                && vol.dbits == Freed(old(vol).dbits, old(vol).inodes[n].blocks)
      ensures old(initialized) ==> InodeDrift() == old(InodeDrift()) && BlockDrift() == old(BlockDrift())
    {
      if !initialized {
        return -1;
      }
      var n := PathLookup(path);
      if n < 0 {
        return -1;
      }
      if NameOf(path) == [] {
        MirroredSlots(disk.blocks, vol);
        RootUnlinked(vol);
        UnlinkFound([], n, now);
      } else {
        UnlinkFile(NameOf(path), n, now);
      }
      return 0;
    }

    /** `fs_unlink` of a file. */
    method UnlinkFile(name: Name, n: u32, now: u32)
      requires Sound() && GoodFds(vol, openFiles) && name in Names(vol) && n == Lookup(vol, name)
      modifies `superblock, `vol, inodeBitmap, dataBitmap, disk`blocks, disk.data
      ensures Sound() && (GoodFds(vol, openFiles) <==> NoneOn(openFiles, n))
      ensures Files(vol) == Files(old(vol)) - {name} && Kept(old(vol), vol, {name})
      ensures 0 < n < TABLE_INODES && vol.ibits == old(vol).ibits[n := false]
      ensures vol.dbits == Freed(old(vol).dbits, old(vol).inodes[n].blocks)
      ensures InodeDrift() == old(InodeDrift()) && BlockDrift() == old(BlockDrift())
    {
      MirroredSlots(disk.blocks, vol);
      LookupLive(vol, name);
      UnlinkEffect(vol, name, now, openFiles);
      UnlinkFound(name, n, now);
    }

    /** `fs_unlink` once the name has been found; the empty name is the root's. */
    method UnlinkFound(name: Name, n: u32, now: u32)
      requires Wired() && Counted() && Consistent(vol, {}) && DirRead(vol) && n < TABLE_INODES && Live(vol, n)
      requires if name == [] then n == 0 && [] !in Names(vol)
               else name in Names(vol) && 0 < n == Lookup(vol, name) && vol.inodes[0].blocks[SlotNamed(vol, name) / 16] < MAX_DATA
      modifies `superblock, `vol, inodeBitmap, dataBitmap, disk`blocks, disk.data
      ensures Wired() && disk.blocks[0] == old(disk.blocks[0])
      ensures InodeDrift() == old(InodeDrift()) && BlockDrift() == old(BlockDrift())
      ensures vol == if name == [] then Release(old(vol), 0) else Unlinked(old(vol), name, now)
    {
      ghost var v := vol;
      MirroredInode(disk.blocks, vol, n);
      var ok, i := ReadInode(n);
      if !ok {
        assert false;
        return;
      }
      FreeFileBlocks(i, n);
      FreeInode(n);
      var _ := DirRemoveEntry(name, now, v);
    }

    // ------------------------------------------------------------ open and close

    /** The inode that an open refers to, creating the file when asked to; -1 when there is none. */
    method Resolve(path: seq<byte>, flags: u32, now: u32) returns (n: int)
      requires Valid() && initialized && 0 !in path
      requires Stored(NameOf(path)) in Files(vol) ==> NameOf(path) in Files(vol) || NameOf(path) == []
      modifies `superblock, `vol, inodeBitmap, dataBitmap, disk`blocks, disk.data
      ensures Valid()
      ensures var name := NameOf(path);
              var made := name != [] && name !in Files(old(vol)) && BitOf(flags, 2) && |Files(old(vol))| < ROOT_SLOTS;
              && Files(vol) == (if made then Files(old(vol))[Stored(name) := []] else Files(old(vol)))
              && (made ==> CreateTakes(old(vol), vol, 1))
              && n == if name == [] then 0 else Lookup(vol, name)
      ensures InodeDrift() == old(InodeDrift()) && BlockDrift() == old(BlockDrift()) && Kept(old(vol), vol, {})
    {
      KeptSame(vol, vol);
      n := PathLookup(path);
      if n < 0 && BitOf(flags, 2) {
        var created := FsCreate(path, 1, now);
        if created < 0 {
          return -1;
        }
        n := PathLookup(path);
      }
    }

    method FsOpen(path: seq<byte>, flags: u32, now: u32) returns (r: int)
      requires Valid() && 0 !in path
      requires initialized && Stored(NameOf(path)) in Files(vol) ==> NameOf(path) in Files(vol) || NameOf(path) == []
      modifies `superblock, `vol, `openFiles, inodeBitmap, dataBitmap, disk`blocks, disk.data
      ensures Valid()
      ensures !old(initialized) ==> r == -1 && vol == old(vol) && openFiles == old(openFiles)
      ensures old(initialized) ==>
                var name := NameOf(path);
                var made := name != [] && name !in Files(old(vol)) && BitOf(flags, 2) && |Files(old(vol))| < ROOT_SLOTS;
                && Files(vol) == (if made then Files(old(vol))[Stored(name) := []] else Files(old(vol)))
                && (made ==> CreateTakes(old(vol), vol, 1))
                && r == (if name == [] || name in Files(vol) then FreeFd(old(openFiles)) else -1)
                && (r == -1 ==> openFiles == old(openFiles))
                && (r >= 0 ==> var n := if name == [] then 0 else Lookup(vol, name);
                               0 <= n < TABLE_INODES && openFiles == old(openFiles)[r := OpenFile(n, 0, flags, true)])
      ensures old(initialized) ==> InodeDrift() == old(InodeDrift()) && BlockDrift() == old(BlockDrift()) && Kept(old(vol), vol, {})
    {
      if !initialized {
        return -1;
      }
      var n := Resolve(path, flags, now);
      if n < 0 {
        return -1;
      }
      if NameOf(path) != [] {
        LookupLive(vol, NameOf(path));
      }
      r := TakeFd(n, flags);
    }

    /** The first unused descriptor is given to inode `n`. */
    method TakeFd(n: u32, flags: u32) returns (r: int)
      requires Valid() && initialized && GoodFd(vol, OpenFile(n, 0, flags, true))
      modifies `openFiles
      ensures Valid() && r == FreeFd(old(openFiles))
      ensures openFiles == if r == -1 then old(openFiles) else old(openFiles)[r := OpenFile(n, 0, flags, true)]
    {
      r := FindFreeFd();
      if r < 0 {
        return -1;
      }
      FdsSet(vol, openFiles, r, OpenFile(n, 0, flags, true));
      openFiles := openFiles[r := OpenFile(n, 0, flags, true)];
    }

    method FindFreeFd() returns (r: int)
      requires |openFiles| == MAX_OPEN
      ensures r == FreeFd(openFiles)
    {
      for k := 0 to MAX_OPEN
        invariant forall j :: 0 <= j < k ==> openFiles[j].inUse
      {
        if !openFiles[k].inUse {
          return k;
        }
      }
      return -1;
    }

    method FsClose(fd: int) returns (r: int)
      requires Valid()
      modifies `openFiles
      ensures Valid()
      ensures r == if 0 <= fd < MAX_OPEN && old(openFiles)[fd].inUse then 0 else -1
      ensures openFiles == if r == 0 then old(openFiles)[fd := old(openFiles)[fd].(inUse := false)] else old(openFiles)
    {
      if fd < 0 || fd >= MAX_OPEN {
        return -1;
      }
      if !openFiles[fd].inUse {
        return -1;
      }
      GoodFdsAre(vol, openFiles);
      openFiles := openFiles[fd := openFiles[fd].(inUse := false)];
      GoodFdsAre(vol, openFiles);
      return 0;
    }

    // ------------------------------------------------------------ read and write

    ghost predicate Usable(fd: int, bit: nat)
      reads this
    {
      0 <= fd < |openFiles| && openFiles[fd].inUse && BitOf(openFiles[fd].flags, bit)
    }

    /** The bytes come from the descriptor's position on; see `ReadCountExact` for how many. */
    method FsRead(fd: int, size: u32) returns (r: int, buf: seq<byte>)
      requires Valid()
      modifies `openFiles
      ensures !old(Usable(fd, 0)) ==> r == -1 && buf == [] && openFiles == old(openFiles) && Valid()
      ensures old(Usable(fd, 0)) ==>
                var f := old(openFiles)[fd];
                && f.inode < TABLE_INODES && r == ReadCount(vol.inodes[f.inode], f.position, size)
                && buf == BytesFrom(vol, vol.inodes[f.inode], f.position, r)
                && 0 <= r && f.position + r < WORD_LIMIT && openFiles == old(openFiles)[fd := Advanced(f, r)]
      ensures old(Usable(fd, 0)) && (old(openFiles)[fd].inode == 0 || old(openFiles)[fd].position + size < WORD_LIMIT) ==> Valid()
    {
      if fd < 0 || fd >= MAX_OPEN || !openFiles[fd].inUse {
        return -1, [];
      }
      if !BitOf(openFiles[fd].flags, 0) {
        return -1, [];
      }
      var f := openFiles[fd];
      FdAt(vol, openFiles, fd);
      FdInode(vol, f);
      buf := ReadFile(f.inode, f.position, size);
      r := |buf|;
      if f.inode == 0 || f.position + size < WORD_LIMIT {
        FdsSet(vol, openFiles, fd, Advanced(f, r));
      }
      openFiles := openFiles[fd := Advanced(f, r)];
    }

    method ReadFile(n: u32, pos: u32, size: u32) returns (buf: seq<byte>)
      requires Wired() && n < TABLE_INODES && GoodInode(vol.inodes[n])
      ensures buf == BytesFrom(vol, vol.inodes[n], pos, ReadCount(vol.inodes[n], pos, size))
      ensures pos + |buf| < WORD_LIMIT
      ensures pos <= vol.inodes[n].size && pos + size < WORD_LIMIT ==> pos + |buf| <= vol.inodes[n].size
    {
      MirroredInode(disk.blocks, vol, n);
      var ok, i := ReadInode(n);
      if !ok {
        assert false;
        return [];
      }
      if pos >= i.size {
        return [];
      }
      ReadCountFits(i, pos, size);
      buf := ReadBlocks(i, pos, if Add32(pos, size) > i.size then i.size - pos else size);
    }

    /** The block loop of `fs_read`: at most `limit` bytes, up to the first null pointer. */
    method ReadBlocks(i: Inode, start: u32, limit: u32) returns (buf: seq<byte>)
      requires Wired() && GoodInode(i) && start < i.size
      ensures buf == BytesFrom(vol, i, start, Min(limit, 512 * BlockPrefix(i) - start))
    {
      buf := [];
      var pos := start;
      PrefixCovers(i);
      while |buf| < limit
        invariant pos == start + |buf| <= 512 * BlockPrefix(i) && |buf| <= limit
        invariant buf == BytesFrom(vol, i, start, |buf|)
        decreases limit - |buf|
      {
        var k, o := pos / 512, pos % 512;
        var m := Min(limit - |buf|, 512 - o);
        if k >= DIRECT || i.blocks[k] == 0 {
          break;
        }
        var data := ReadData(i.blocks[k]);
        ChunkBytes(vol, i, pos, m);
        BytesSplit(vol, i, start, |buf|, m);
        buf := buf + data[o..o + m];
        pos := pos + m;
      }
    }

    /** The block of a file that holds `pos`, allocated and zeroed if there is none yet; `g` is the
        volume as it will be once inode `j` is written back. */
    method FileBlock(i: Inode, pos: u32, ghost n: nat, ghost s: nat, ghost w: Volume) returns (j: Inode, data: Block, ghost g: Volume)
      requires Wired() && Counted() && Writing(w, s, n) && Pending(vol, w, n, i) && pos < MAX_FILE_SIZE && pos <= i.size
      modifies `superblock, `vol, dataBitmap, disk`blocks, disk.data
      ensures Wired() && disk.blocks[0] == old(disk.blocks[0])
      ensures InodeDrift() == old(InodeDrift()) && BlockDrift() == old(BlockDrift())
      ensures j.blocks[pos / 512] < MAX_DATA && BlockReady(vol, w, g, s, n, i, j, data, pos)
    {
      var k := pos / 512;
      if i.blocks[k] == 0 {
        RoomLeft(w, {});
        var b := AllocDataBlock();
        if b == -1 {
          assert false;
          return i, ZERO_BLOCK, w;
        }
        GrowFile(w, s, pos, b);
        g := Grow(w, n, k, b);
        SameSlots(w, g);
        j, data := i.(blocks := i.blocks[k := b]), ZERO_BLOCK;
      } else {
        WritingBlock(w, s, n, k);
        g, j := w, i;
        data := ReadData(i.blocks[k]);
      }
      PendingBlock(vol, w, g, n, i, k);
      ReadyIs(vol, w, g, s, n, i, j, data, pos);
    }

    /** One round of `fs_write`: `chunk` goes into the block that holds `pos`. The inode is returned,
        to be written back at the end; `w` is the volume as if it had been. */
    method WriteChunk(i: Inode, pos: u32, chunk: seq<byte>, ghost n: nat, ghost s: nat, ghost w: Volume)
        returns (i': Inode, ghost w': Volume)
      requires Wired() && Counted() && Writing(w, s, n) && Pending(vol, w, n, i)
      requires pos < MAX_FILE_SIZE && pos <= i.size && pos % 512 + |chunk| <= 512
      modifies `superblock, `vol, dataBitmap, disk`blocks, disk.data
      ensures Wired() && disk.blocks[0] == old(disk.blocks[0])
      ensures InodeDrift() == old(InodeDrift()) && BlockDrift() == old(BlockDrift())
      ensures Writing(w', s, n) && Pending(vol, w', n, i') && ChunkStored(w, w', s, n, i, i', pos, chunk)
    {
      var j, data;
      ghost var g;
      j, data, g := FileBlock(i, pos, n, s, w);
      i' := Resized(j, pos + |chunk|);
      w' := ChunkEffect(vol, w, g, s, n, i, j, data, pos, chunk);
      WriteData(j.blocks[pos / 512], Patch(data, pos % 512, chunk));
    }

    /** The block loop of `fs_write`, up to the ten blocks a file can have. */
    method WriteBlocks(i: Inode, start: u32, buf: seq<byte>, ghost n: nat, ghost s: nat)
        returns (count: nat, i': Inode, ghost w: Volume)
      requires Wired() && Counted() && Writing(vol, s, n) && i == vol.inodes[n] && start <= i.size
      modifies `superblock, `vol, dataBitmap, disk`blocks, disk.data
      ensures Wired() && disk.blocks[0] == old(disk.blocks[0])
      ensures InodeDrift() == old(InodeDrift()) && BlockDrift() == old(BlockDrift())
      ensures count == Min(|buf|, MAX_FILE_SIZE - start)
      ensures Writing(w, s, n) && Pending(vol, w, n, i')
      ensures ChunkStored(old(vol), w, s, n, i, i', start, buf[..count])
    {
      ghost var v := vol;
      count, i', w := 0, i, vol;
      NothingStored(v, s, n, start);
      assert v.inodes[n := i] == v.inodes && buf[..0] == [];
      WritingSize(v, s, n);
      while count < |buf|
        invariant count <= |buf| && start + count <= i'.size <= MAX_FILE_SIZE
        invariant Wired() && disk.blocks[0] == old(disk.blocks[0])
        invariant InodeDrift() == old(InodeDrift()) && BlockDrift() == old(BlockDrift())
        invariant Writing(w, s, n) && Pending(vol, w, n, i') && w.inodes[n] == i'
        invariant ChunkStored(v, w, s, n, i, i', start, buf[..count])
        decreases |buf| - count
      {
        var pos := start + count;
        if pos / 512 >= DIRECT {
          break;
        }
        var next := count + Min(|buf| - count, 512 - pos % 512);
        var chunk := buf[count..next];
        ghost var w', j := w, i';
        i', w := WriteChunk(i', pos, chunk, n, s, w);
        RoundDone(v, w', w, s, n, i, j, i', start, pos, buf, count, next, chunk);
        count := next;
      }
    }

    /** Not for a descriptor on the root directory: a write through it can leave an inconsistent volume. */
    method FsWrite(fd: int, buf: seq<byte>, now: u32) returns (r: int)
      requires Valid() && |buf| < WORD_LIMIT
      requires Usable(fd, 1) ==> openFiles[fd].inode != 0
      modifies `superblock, `vol, `openFiles, dataBitmap, disk`blocks, disk.data
      ensures Valid()
      ensures !old(Usable(fd, 1)) ==> r == -1 && vol == old(vol) && openFiles == old(openFiles) && superblock == old(superblock)
      ensures old(Usable(fd, 1)) ==> 0 <= r && Wrote(old(vol), vol, old(openFiles)[fd], buf, r)
      ensures old(Usable(fd, 1)) ==> openFiles == old(openFiles)[fd := Advanced(old(openFiles)[fd], r)]
      ensures old(initialized) ==> InodeDrift() == old(InodeDrift()) && BlockDrift() == old(BlockDrift())
    {
      if fd < 0 || fd >= MAX_OPEN || !openFiles[fd].inUse {
        return -1;
      }
      if !BitOf(openFiles[fd].flags, 1) {
        return -1;
      }
      FdAt(vol, openFiles, fd);
      r := WriteFile(fd, buf, now);
      openFiles := openFiles[fd := Advanced(openFiles[fd], r)];
    }

    /** `fs_write` on a checked descriptor, before its position is moved. */
    method WriteFile(fd: nat, buf: seq<byte>, now: u32) returns (r: nat)
      requires Sound() && fd < MAX_OPEN && openFiles[fd].inUse && GoodFds(vol, openFiles)
      requires GoodFd(vol, openFiles[fd]) && openFiles[fd].inode != 0
      modifies `superblock, `vol, dataBitmap, disk`blocks, disk.data
      ensures Sound() && InodeDrift() == old(InodeDrift()) && BlockDrift() == old(BlockDrift())
      ensures GoodFds(vol, openFiles[fd := Advanced(openFiles[fd], r)]) && Wrote(old(vol), vol, openFiles[fd], buf, r)
    {
      var f := openFiles[fd];
      ghost var v, s := vol, SlotListing(vol, f.inode);
      MirroredSlots(disk.blocks, vol);
      MirroredInode(disk.blocks, vol, f.inode);
      r := 0;
      var ok, i := ReadInode(f.inode);
      if !ok {
        assert false;
        return;
      }
      WritingSize(vol, s, f.inode);
      var i';
      ghost var w;
      r, i', w := WriteBlocks(i, f.position, buf, f.inode, s);
      StoredFiles(v, w, s, f.inode, i, i', f.position, buf[..r]);
      WriteBackInode(f.inode, i', now, s, w);
      assert |buf[..r]| == r;
      WriteDone(v, vol, w, s, f.inode, i', f.position, buf[..r], now, openFiles, fd);
      WroteIs(v, vol, f, buf, r);
    }

    /** The end of `fs_write`: the inode goes to the disk with a new modification time. */
    method WriteBackInode(n: u32, i: Inode, now: u32, ghost s: nat, ghost w: Volume)
      requires Wired() && Writing(w, s, n) && Pending(vol, w, n, i)
      modifies `vol, disk`blocks, disk.data
      ensures Wired() && disk.blocks[0] == old(disk.blocks[0])
      ensures InodeDrift() == old(InodeDrift()) && BlockDrift() == old(BlockDrift())
      ensures Consistent(vol, {}) && Files(vol) == Files(w) && vol.dir == w.dir && vol.ibits == w.ibits
      ensures vol.inodes == w.inodes[n := i.(modified := now)]
    {
      ghost var t := WriteBack(vol, w, s, n, i, now);
      var _ := WriteInode(n, i.(modified := now));
    }

    // ------------------------------------------------------------ format and mount

    /** The buffers that exist are blocks of their own. */
    ghost predicate Buffers()
      reads this, disk
    {
      && (inodeBitmap != null ==> inodeBitmap.Length == 512 && inodeBitmap != disk.data)
      && (dataBitmap != null ==> dataBitmap.Length == 512 && dataBitmap != disk.data)
      && (inodeBitmap != null && dataBitmap != null ==> inodeBitmap != dataBitmap)
    }

    /** Whatever was on the disk, the result is an empty file system with exact free counters.
        Descriptors are not touched: mounting closes them. */
    method FsFormat(now: u32)
      requires disk.Valid() && Buffers() && |openFiles| == MAX_OPEN
      modifies `superblock, `vol, `inodeBitmap, `dataBitmap, `initialized, inodeBitmap, dataBitmap, disk`blocks, disk.data
      ensures !disk.initialized ==> initialized == old(initialized) && disk.blocks == old(disk.blocks)
      ensures disk.initialized ==>
                && initialized && Sound() && Files(vol) == map[] && InodeDrift() == 0 && BlockDrift() == 0
                && Zeros(vol.ibits) == 511 && Zeros(vol.dbits) == 1980 && vol.inodes[0].mode == 6
      ensures inodeBitmap == old(inodeBitmap) || fresh(inodeBitmap)
      ensures dataBitmap == old(dataBitmap) || fresh(dataBitmap)
    {
      if !disk.initialized {
        return;
      }
      NewBitmaps();
      superblock := FORMAT_SUPER;
      WriteFormat(now, inodeBitmap[..], dataBitmap[..]);
      initialized := true;
      vol := FormatEffect(disk.blocks, superblock, now);
    }

    method NewBitmaps()
      requires Buffers()
      modifies `inodeBitmap, `dataBitmap, inodeBitmap, dataBitmap
      ensures Buffers() && inodeBitmap != null && dataBitmap != null
      ensures inodeBitmap[..] == SetBit(ZERO_BLOCK, 0) && dataBitmap[..] == SetBit(ZERO_BLOCK, 0)
      ensures inodeBitmap == old(inodeBitmap) || fresh(inodeBitmap)
      ensures dataBitmap == old(dataBitmap) || fresh(dataBitmap)
    {
      if inodeBitmap == null {
        inodeBitmap := new byte[512];
      }
      if dataBitmap == null {
        dataBitmap := new byte[512];
      }
      FillFirstBit(inodeBitmap);
      FillFirstBit(dataBitmap);
    }

    /** The block writes of a format, in the source's order. */
    method WriteFormat(now: u32, ib: Block, db: Block)
      requires disk.Valid() && disk.initialized
      modifies disk`blocks, disk.data
      ensures disk.Valid() && SuperAt(disk.blocks[0]) == superblock && InodeAt(disk.blocks, 0) == FreshInode(6, now)
      ensures disk.blocks[INODE_BITMAP_BLOCK] == ib && disk.blocks[DATA_BITMAP_BLOCK] == db
    {
      WriteEmptyRoot(now);
      SaveSuper();
      var _ := disk.WriteBlock(INODE_BITMAP_BLOCK, ib);
      var _ := disk.WriteBlock(DATA_BITMAP_BLOCK, db);
    }

    method SaveSuper()
      requires disk.Valid() && disk.initialized
      modifies disk`blocks, disk.data
      ensures disk.Valid() && disk.blocks == old(disk.blocks)[0 := disk.blocks[0]]
      ensures SuperAt(disk.blocks[0]) == superblock
    {
      SuperRoundTrip(superblock);
      var _ := disk.WriteBlock(SUPERBLOCK_BLOCK, SuperBlockBytes(superblock));
    }

    /** The root inode and its first data block. */
    method WriteEmptyRoot(now: u32)
      requires disk.Valid() && disk.initialized
      modifies disk`blocks, disk.data
      ensures disk.Valid() && InodeAt(disk.blocks, 0) == FreshInode(6, now)
    {
      ReadBackInode(disk.blocks, 0, FreshInode(6, now), 0);
      var _, temp := disk.ReadBlock(InodeBlock(0));
      var _ := disk.WriteBlock(InodeBlock(0), PatchInode(temp, 0, FreshInode(6, now)));
      var _ := disk.WriteBlock(DATA_START, ZERO_BLOCK);
    }

    /** Mounting: the bit maps and the superblock come from the disk, all descriptors are closed, and
        the volume is the one the disk holds, whatever it holds. On a disk that format and calls have
        left behind it is a file system again; its free counters are the ones saved by formatting. */
    method FsInit()
      requires disk.Valid() && |openFiles| == MAX_OPEN
      modifies `superblock, `vol, `inodeBitmap, `dataBitmap, `openFiles, `initialized
      ensures disk.initialized && SuperAt(disk.blocks[0]).magic == MAGIC ==>
                && initialized && Wired() && superblock == SuperAt(disk.blocks[0])
                && (forall k :: 0 <= k < MAX_OPEN ==> !openFiles[k].inUse)
                && (Consistent(vol, {}) && Small(vol) && SavedSuper(disk.blocks[0]) ==>
                      Valid() && InodeDrift() == 511 - Zeros(vol.ibits) && BlockDrift() == 1980 - Zeros(vol.dbits))
      ensures !(disk.initialized && SuperAt(disk.blocks[0]).magic == MAGIC) ==>
                initialized == old(initialized) && openFiles == old(openFiles) && vol == old(vol)
      ensures inodeBitmap == old(inodeBitmap) || fresh(inodeBitmap)
      ensures dataBitmap == old(dataBitmap) || fresh(dataBitmap)
    {
      if !disk.initialized {
        return;
      }
      var _, temp := disk.ReadBlock(SUPERBLOCK_BLOCK);
      superblock := SuperAt(temp);
      if superblock.magic != MAGIC {
        inodeBitmap, dataBitmap := new byte[512], new byte[512];
        return;
      }
      LoadBitmaps();
      CloseAll();
      initialized := true;
      vol := Mounted(disk.blocks);
      if Consistent(vol, {}) && SavedSuper(disk.blocks[0]) {
        MountEffect(disk.blocks[0], vol, openFiles);
      }
    }

    method LoadBitmaps()
      requires disk.Valid() && disk.initialized
      modifies `inodeBitmap, `dataBitmap
      ensures inodeBitmap != null && dataBitmap != null && fresh(inodeBitmap) && fresh(dataBitmap) && inodeBitmap != dataBitmap
      ensures inodeBitmap[..] == disk.blocks[INODE_BITMAP_BLOCK] && dataBitmap[..] == disk.blocks[DATA_BITMAP_BLOCK]
    {
      var _, ib := disk.ReadBlock(INODE_BITMAP_BLOCK);
      var _, db := disk.ReadBlock(DATA_BITMAP_BLOCK);
      inodeBitmap := new byte[512](k requires 0 <= k < 512 => ib[k]);
      dataBitmap := new byte[512](k requires 0 <= k < 512 => db[k]);
    }

    method CloseAll()
      requires |openFiles| == MAX_OPEN
      modifies `openFiles
      ensures |openFiles| == MAX_OPEN && forall k :: 0 <= k < MAX_OPEN ==> !openFiles[k].inUse
    {
      for k := 0 to MAX_OPEN
        invariant |openFiles| == MAX_OPEN && forall j :: 0 <= j < k ==> !openFiles[j].inUse
      {
        openFiles := openFiles[k := openFiles[k].(inUse := false)];
      }
    }
  }
}
