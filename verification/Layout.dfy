/** The on-disk format of WitFS: superblock, inode and directory-entry codecs, and the
    decoding of a whole disk (2048 blocks of bytes) into a volume of typed parts. */
module Layout {
  import opened Words

  const BLOCK_SIZE: nat := 512
  const DISK_BLOCKS: nat := 2048
  const SUPERBLOCK_BLOCK: nat := 0
  const INODE_BITMAP_BLOCK: nat := 1
  const DATA_BITMAP_BLOCK: nat := 2
  const INODE_TABLE_BLOCK: nat := 3
  const INODE_TABLE_BLOCKS: nat := 64
  const DATA_START: nat := 67
  const MAX_INODES: nat := 512
  const MAX_DATA: nat := 1981
  const MAX_FILENAME: nat := 27
  const DIRECT: nat := 10
  const MAX_FILE_SIZE: nat := 5120
  const MAGIC: u32 := 0x57495443

  /** `sizeof(fs_inode_t)`: twenty 32-bit fields, not the 64 bytes of the comment. */
  const INODE_BYTES: nat := 80
  /** Inode numbers whose slot lies inside the inode table. */
  const TABLE_INODES: nat := 384

  const DIRENT_BYTES: nat := 32
  const ENTRIES_PER_BLOCK: nat := 16
  const ROOT_SLOTS: nat := 160

  type Block = b: seq<byte> | |b| == 512 witness Repeat(512, 0)

  const ZERO_BLOCK: Block := Repeat(512, 0)

  type Disk = d: seq<Block> | |d| == 2048 witness Repeat(2048, ZERO_BLOCK)

  datatype InodeFields = Inode(mode: u32, size: u32, uid: u32, gid: u32, created: u32, modified: u32,
                               blocks: seq<u32>, reserved: seq<u32>)

  type Inode = i: InodeFields | |i.blocks| == 10 && |i.reserved| == 4
    witness InodeFields.Inode(0, 0, 0, 0, 0, 0, Repeat(10, 0), Repeat(4, 0))

  const EMPTY_INODE: Inode := InodeFields.Inode(0, 0, 0, 0, 0, 0, Repeat(10, 0), Repeat(4, 0))

  datatype Superblock = Superblock(magic: u32, version: u32, blockSize: u32, totalBlocks: u32,
                                   inodeBitmapBlock: u32, dataBitmapBlock: u32, inodeTableBlock: u32, dataBlocksStart: u32,
                                   totalInodes: u32, totalDataBlocks: u32, freeInodes: u32, freeBlocks: u32, rootInode: u32)

  // ---------------------------------------------------------------- inodes

  function InodeWords(i: Inode): (r: seq<u32>)
    ensures |r| == 20
  {
    [i.mode, i.size, i.uid, i.gid, i.created, i.modified] + i.blocks + i.reserved
  }

  function InodeOfWords(w: seq<u32>): (i: Inode)
    requires |w| == 20
  {
    InodeFields.Inode(w[0], w[1], w[2], w[3], w[4], w[5], w[6..16], w[16..20])
  }

  lemma InodeRoundTrip(i: Inode)
    ensures InodeOfWords(InodeWords(i)) == i
  {
  }

  function InodeBlock(n: nat): nat {
    INODE_TABLE_BLOCK + n / 6
  }

  function InodeOffset(n: nat): (o: nat)
    ensures o + INODE_BYTES <= BLOCK_SIZE
  {
    n % 6 * 80
  }

  /** The inode numbered `n`, out of the block that holds it. */
  function InodeIn(b: Block, n: nat): (i: Inode) {
    InodeOfWords(WordsAt(b, InodeOffset(n), 20))
  }

  function InodeAt(d: Disk, n: nat): (i: Inode)
    requires n < MAX_INODES
  {
    InodeIn(d[InodeBlock(n)], n)
  }

  function PatchInode(b: Block, n: nat, i: Inode): (r: Block) {
    Patch(b, InodeOffset(n), WordsBytes(InodeWords(i)))
  }

  function PutInode(d: Disk, n: nat, i: Inode): (r: Disk)
    requires n < MAX_INODES
  {
    d[InodeBlock(n) := PatchInode(d[InodeBlock(n)], n, i)]
  }

  lemma PatchedInode(b: Block, n: nat, i: Inode, m: nat)
    requires m == n || m % 6 != n % 6
    ensures InodeIn(PatchInode(b, n, i), m) == if m == n then i else InodeIn(b, m)
  {
    var w := WordsBytes(InodeWords(i));
    if m == n {
      WordsRoundTrip(InodeWords(i));
      WordsAtPatched(b, InodeOffset(n), w, InodeWords(i));
      InodeRoundTrip(i);
    } else {
      assert InodeOffset(m) + 80 <= InodeOffset(n) || InodeOffset(n) + 80 <= InodeOffset(m);
      WordsAtClear(b, InodeOffset(n), w, InodeOffset(m), 20);
    }
  }

  /** An inode write is seen by reads of that number and by no other. */
  lemma ReadBackInode(d: Disk, n: nat, i: Inode, m: nat)
    requires n < MAX_INODES && m < MAX_INODES
    ensures InodeAt(PutInode(d, n, i), m) == if m == n then i else InodeAt(d, m)
  {
    if m == n || m % 6 != n % 6 {
      PatchedInode(d[InodeBlock(n)], n, i, m);
    } else {
      assert InodeBlock(m) != InodeBlock(n);
    }
  }

  lemma PatchedWord(b: Block, n: nat, i: Inode, k: nat)
    requires k < 20
    ensures WordAt(PatchInode(b, n, i), n % 6 * 80 + 4 * k) == InodeWords(i)[k]
  {
    var ws := InodeWords(i);
    WordsRoundTrip(ws);
    WordsAtPatched(b, InodeOffset(n), WordsBytes(ws), ws);
    assert WordsAt(PatchInode(b, n, i), InodeOffset(n), 20)[k] == ws[k];
  }

  /** Where the fields of inode `n` stand on the disk: from byte 80 * (n % 6) of block 3 + n / 6 on. */
  lemma InodeOnDisk(d: Disk, n: nat, i: Inode)
    requires n < MAX_INODES
    ensures var b, o := PutInode(d, n, i)[3 + n / 6], n % 6 * 80;
            && WordAt(b, o) == i.mode && WordAt(b, o + 4) == i.size && WordAt(b, o + 8) == i.uid && WordAt(b, o + 12) == i.gid
            && WordAt(b, o + 16) == i.created && WordAt(b, o + 20) == i.modified
            && (forall k :: 0 <= k < 10 ==> WordAt(b, o + (24 + 4 * k)) == i.blocks[k])
  {
    var was := d[InodeBlock(n)];
    PatchedWord(was, n, i, 0);
    PatchedWord(was, n, i, 1);
    PatchedWord(was, n, i, 2);
    PatchedWord(was, n, i, 3);
    PatchedWord(was, n, i, 4);
    PatchedWord(was, n, i, 5);
    forall k | 0 <= k < 10 ensures WordAt(PatchInode(was, n, i), n % 6 * 80 + (24 + 4 * k)) == i.blocks[k] {
      PatchedWord(was, n, i, k + 6);
    }
  }

  // ---------------------------------------------------------------- directory entries

  /** The name as stored: cut to 27 characters. */
  function Stored(name: seq<byte>): (r: seq<byte>)
    ensures |r| <= MAX_FILENAME
    ensures |name| <= MAX_FILENAME ==> r == name
  {
    name[..Min(|name|, MAX_FILENAME)]
  }

  function EntryBytes(n: u32, name: seq<byte>): (r: seq<byte>)
    ensures |r| == DIRENT_BYTES
  {
    WordBytes(n) + (Stored(name) + Repeat(MAX_FILENAME + 1 - |Stored(name)|, 0))
  }

  function EntryInode(b: Block, i: nat): (n: u32)
    requires i < ENTRIES_PER_BLOCK
  {
    WordAt(b, 32 * i)
  }

  function EntryName(b: Block, i: nat): (name: seq<byte>)
    requires i < ENTRIES_PER_BLOCK
  {
    CString(b[32 * i + 4..32 * i + 32])
  }

  function PutEntry(b: Block, i: nat, n: u32, name: seq<byte>): (r: Block)
    requires i < ENTRIES_PER_BLOCK
  {
    Patch(b, 32 * i, EntryBytes(n, name))
  }

  function ClearEntry(b: Block, i: nat): (r: Block)
    requires i < ENTRIES_PER_BLOCK
  {
    Patch(b, 32 * i, WordBytes(0))
  }

  /** Rewriting the head of entry `i` leaves every other entry alone. */
  lemma OtherEntries(b: Block, i: nat, d: seq<byte>, j: nat)
    requires i < ENTRIES_PER_BLOCK && j < ENTRIES_PER_BLOCK && i != j && |d| <= DIRENT_BYTES
    ensures var r: Block := Patch(b, 32 * i, d);
            EntryInode(r, j) == EntryInode(b, j) && EntryName(r, j) == EntryName(b, j)
  {
    assert 32 * j + 32 <= 32 * i || 32 * i + 32 <= 32 * j;
    PatchOutside(b, 32 * i, d, 32 * j, 32 * j + 4);
    PatchOutside(b, 32 * i, d, 32 * j + 4, 32 * j + 32);
  }

  lemma EntryAfterPut(b: Block, i: nat, n: u32, name: seq<byte>, j: nat)
    requires i < ENTRIES_PER_BLOCK && j < ENTRIES_PER_BLOCK
    requires 0 !in name
    ensures EntryInode(PutEntry(b, i, n, name), j) == if j == i then n else EntryInode(b, j)
    ensures EntryName(PutEntry(b, i, n, name), j) == if j == i then Stored(name) else EntryName(b, j)
  {
    var d := EntryBytes(n, name);
    if j == i {
      WordRoundTrip(n);
      PatchInside(b, 32 * i, d, 0, 4);
      PatchInside(b, 32 * i, d, 4, 32);
      assert d[0..4] == WordBytes(n);
      assert d[4..32] == Stored(name) + Repeat(28 - |Stored(name)|, 0);
      CStringOfPadded(Stored(name), 28 - |Stored(name)|);
    } else {
      OtherEntries(b, i, d, j);
    }
  }

  /** Where an entry stands: a word, then at most 27 characters of the name, then zeros up to 32 bytes. */
  lemma EntryOnDisk(b: Block, i: nat, n: u32, name: seq<byte>)
    requires i < ENTRIES_PER_BLOCK
    ensures var r := PutEntry(b, i, n, name);
            && WordAt(r, 32 * i) == n
            && (forall k :: 0 <= k < 28 ==> r[32 * i + 4 + k] == if k < |name| && k < 27 then name[k] else 0)
            && (forall k :: 0 <= k < 512 && !(32 * i <= k < 32 * i + 32) ==> r[k] == b[k])
  {
    var d := EntryBytes(n, name);
    WordRoundTrip(n);
    PatchInside(b, 32 * i, d, 0, 4);
    assert d[0..4] == WordBytes(n);
  }

  lemma EntryAfterClear(b: Block, i: nat, j: nat)
    requires i < ENTRIES_PER_BLOCK && j < ENTRIES_PER_BLOCK
    ensures EntryInode(ClearEntry(b, i), j) == if j == i then 0 else EntryInode(b, j)
    ensures EntryName(ClearEntry(b, i), j) == EntryName(b, j)
  {
    var d := WordBytes(0);
    if j == i {
      WordRoundTrip(0);
      PatchInside(b, 32 * i, d, 0, 4);
      assert d[0..4] == d;
      PatchOutside(b, 32 * i, d, 32 * i + 4, 32 * i + 32);
    } else {
      OtherEntries(b, i, d, j);
    }
  }

  // ---------------------------------------------------------------- superblock

  function SuperWords(s: Superblock): (r: seq<u32>)
    ensures |r| == 13
  {
    [s.magic, s.version, s.blockSize, s.totalBlocks, s.inodeBitmapBlock, s.dataBitmapBlock, s.inodeTableBlock,
     s.dataBlocksStart, s.totalInodes, s.totalDataBlocks, s.freeInodes, s.freeBlocks, s.rootInode]
  }

  function SuperBlockBytes(s: Superblock): (b: Block) {
    Patch(ZERO_BLOCK, 0, WordsBytes(SuperWords(s)))
  }

  function SuperAt(b: Block): (s: Superblock) {
    var w := WordsAt(b, 0, 13);
    Superblock(w[0], w[1], w[2], w[3], w[4], w[5], w[6], w[7], w[8], w[9], w[10], w[11], w[12])
  }

  lemma SuperRoundTrip(s: Superblock)
    ensures SuperAt(SuperBlockBytes(s)) == s
  {
    WordsRoundTrip(SuperWords(s));
    WordsAtPatched(ZERO_BLOCK, 0, WordsBytes(SuperWords(s)), SuperWords(s));
    var w := WordsAt(SuperBlockBytes(s), 0, 13);
    assert w == SuperWords(s);
  }

  // ---------------------------------------------------------------- the root directory

  /** A root directory slot; inode number 0 marks it unused. */
  datatype Slot = Slot(inode: u32, name: seq<byte>)

  /** Slot `s` is entry `s % 16` of the block that root pointer `s / 16` names. */
  function SlotAt(blocks: seq<u32>, data: seq<Block>, s: nat): (r: Slot)
    requires |blocks| == 10 && |data| == 1981 && s < ROOT_SLOTS
  {
    var p := blocks[s / 16];
    if p == 0 || p >= MAX_DATA || EntryInode(data[p], s % 16) == 0 then Slot(0, [])
    else Slot(EntryInode(data[p], s % 16), EntryName(data[p], s % 16))
  }

  function SlotsOf(blocks: seq<u32>, data: seq<Block>): (r: seq<Slot>)
    requires |blocks| == 10 && |data| == 1981
    ensures |r| == ROOT_SLOTS
    ensures forall s :: 0 <= s < ROOT_SLOTS ==> r[s] == SlotAt(blocks, data, s)
  {
    seq(ROOT_SLOTS, s requires 0 <= s < ROOT_SLOTS => SlotAt(blocks, data, s))
  }

  ghost predicate DistinctRoot(blocks: seq<u32>)
    requires |blocks| == 10
  {
    forall i, j :: 0 <= i < j < 10 && blocks[i] != 0 ==> blocks[i] != blocks[j]
  }

  lemma SlotsAfterPut(blocks: seq<u32>, data: seq<Block>, s: nat, n: u32, name: seq<byte>)
    requires |blocks| == 10 && |data| == 1981 && s < ROOT_SLOTS && DistinctRoot(blocks)
    requires 0 < blocks[s / 16] < MAX_DATA && n != 0 && 0 !in name
    ensures var p := blocks[s / 16];
            SlotsOf(blocks, data[p := PutEntry(data[p], s % 16, n, name)]) == SlotsOf(blocks, data)[s := Slot(n, Stored(name))]
  {
    var p := blocks[s / 16];
    var e := data[p := PutEntry(data[p], s % 16, n, name)];
    forall t | 0 <= t < ROOT_SLOTS ensures SlotAt(blocks, e, t) == if t == s then Slot(n, Stored(name)) else SlotAt(blocks, data, t) {
      EntryAfterPut(data[p], s % 16, n, name, t % 16);
    }
  }

  lemma SlotsAfterClear(blocks: seq<u32>, data: seq<Block>, s: nat)
    requires |blocks| == 10 && |data| == 1981 && s < ROOT_SLOTS && DistinctRoot(blocks)
    requires 0 < blocks[s / 16] < MAX_DATA
    ensures var p := blocks[s / 16];
            SlotsOf(blocks, data[p := ClearEntry(data[p], s % 16)]) == SlotsOf(blocks, data)[s := Slot(0, [])]
  {
    var p := blocks[s / 16];
    var e := data[p := ClearEntry(data[p], s % 16)];
    forall t | 0 <= t < ROOT_SLOTS ensures SlotAt(blocks, e, t) == if t == s then Slot(0, []) else SlotAt(blocks, data, t) {
      EntryAfterClear(data[p], s % 16, t % 16);
    }
  }

  /** Writing a block the root does not point at leaves the directory alone. */
  lemma SlotsAfterOther(blocks: seq<u32>, data: seq<Block>, b: nat, blk: Block)
    requires |blocks| == 10 && |data| == 1981 && b < MAX_DATA
    requires b == 0 || forall k :: 0 <= k < 10 ==> blocks[k] != b
    ensures SlotsOf(blocks, data[b := blk]) == SlotsOf(blocks, data)
  {
  }

  /** A zeroed block added to the root contributes sixteen unused slots. */
  lemma SlotsAfterGrow(blocks: seq<u32>, data: seq<Block>, k: nat, b: nat)
    requires |blocks| == 10 && |data| == 1981 && k < 10 && 0 < b < MAX_DATA
    requires blocks[k] == 0 && forall j :: 0 <= j < 10 ==> blocks[j] != b
    ensures SlotsOf(blocks[k := b], data[b := ZERO_BLOCK]) == SlotsOf(blocks, data)
  {
  }

  // ---------------------------------------------------------------- the decoded volume

  datatype VolumeParts = Volume(ibits: seq<bool>, dbits: seq<bool>, inodes: seq<Inode>, data: seq<Block>, dir: seq<Slot>)

  /** The typed parts of a disk. Only the 384 inodes that fit in the inode table are part of it. */
  type Volume = v: VolumeParts |
      |v.ibits| == 512 && |v.dbits| == 1981 && |v.inodes| == 384 && |v.data| == 1981 && |v.dir| == 160
    witness VolumeParts.Volume(Repeat(512, false), Repeat(1981, false), Repeat(384, EMPTY_INODE),
                               Repeat(1981, ZERO_BLOCK), Repeat(160, Slot(0, [])))

  function Bits(bm: Block, n: nat): (r: seq<bool>)
    requires n <= 4096
    ensures |r| == n
    ensures forall k :: 0 <= k < n ==> r[k] == TestBit(bm, k)
  {
    seq(n, k requires 0 <= k < n => TestBit(bm, k))
  }

  /** The inodes in the blocks of the inode table. */
  function InodeTable(t: seq<Block>): (r: seq<Inode>)
    requires |t| == INODE_TABLE_BLOCKS
    ensures |r| == TABLE_INODES
    ensures forall n :: 0 <= n < TABLE_INODES ==> r[n] == InodeIn(t[n / 6], n)
  {
    seq(TABLE_INODES, n requires 0 <= n < TABLE_INODES => InodeIn(t[n / 6], n))
  }

  /** Read the directory back from the blocks that hold it. */
  function Reread(v: Volume): (r: Volume) {
    v.(dir := SlotsOf(v.inodes[0].blocks, v.data))
  }

  function Unread(d: Disk): (v: Volume) {
    VolumeParts.Volume(Bits(d[INODE_BITMAP_BLOCK], MAX_INODES), Bits(d[DATA_BITMAP_BLOCK], MAX_DATA),
                       InodeTable(d[INODE_TABLE_BLOCK..DATA_START]), d[DATA_START..], Repeat(160, Slot(0, [])))
  }

  function Decode(d: Disk): (v: Volume) {
    Reread(Unread(d))
  }

  /** `v` is the decoding of `d`. Folded under a quantifier so that proofs about operations
      reason with the volume and not with the bytes behind it. */
  ghost predicate Mirrors(d: Disk, v: Volume) {
    forall k {:trigger Unfold(OfMirrors, k)} :: Unfold(OfMirrors, k) ==> v == Decode(d)
  }

  lemma MirrorsDecode(d: Disk, v: Volume)
    ensures Mirrors(d, v) <==> v == Decode(d)
  {
    assert Unfold(OfMirrors, 0);
  }

  lemma MirroredBits(d: Disk, v: Volume)
    requires Mirrors(d, v)
    ensures forall n :: 0 <= n < MAX_INODES ==> v.ibits[n] == TestBit(d[INODE_BITMAP_BLOCK], n)
    ensures forall b :: 0 <= b < MAX_DATA ==> v.dbits[b] == TestBit(d[DATA_BITMAP_BLOCK], b)
  {
    MirrorsDecode(d, v);
  }

  lemma MirroredInode(d: Disk, v: Volume, n: nat)
    requires Mirrors(d, v) && n < TABLE_INODES
    ensures v.inodes[n] == InodeAt(d, n)
  {
    MirrorsDecode(d, v);
  }

  lemma MirroredData(d: Disk, v: Volume, b: nat)
    requires Mirrors(d, v) && b < MAX_DATA
    ensures v.data[b] == d[DATA_START + b]
  {
    MirrorsDecode(d, v);
  }

  /** The directory of `v` is what its directory blocks say; folded likewise. */
  ghost predicate DirRead(v: Volume) {
    forall k {:trigger Unfold(OfDirRead, k)} :: Unfold(OfDirRead, k) ==> v.dir == SlotsOf(v.inodes[0].blocks, v.data)
  }

  lemma DirReadSlots(v: Volume)
    ensures DirRead(v) <==> v.dir == SlotsOf(v.inodes[0].blocks, v.data)
    ensures DirRead(v) <==> Reread(v) == v
  {
    assert Unfold(OfDirRead, 0);
  }

  lemma MirroredSlots(d: Disk, v: Volume)
    requires Mirrors(d, v)
    ensures DirRead(v)
  {
    MirrorsDecode(d, v);
    DirReadSlots(v);
  }

  // How each kind of block write shows in the decoded volume.

  lemma MirrorInodeBit(d: Disk, v: Volume, n: nat, on: bool)
    requires Mirrors(d, v) && n < MAX_INODES
    ensures Mirrors(d[INODE_BITMAP_BLOCK := if on then SetBit(d[1], n) else ClearBit(d[1], n)], v.(ibits := v.ibits[n := on]))
  {
    var bm: Block := if on then SetBit(d[1], n) else ClearBit(d[1], n);
    var e: Disk := d[INODE_BITMAP_BLOCK := bm];
    MirrorsDecode(d, v);
    forall m | 0 <= m < MAX_INODES ensures TestBit(bm, m) == if m == n then on else TestBit(d[1], m) {
      TestSetBit(d[1], n, m);
      TestClearBit(d[1], n, m);
    }
    assert Bits(e[1], MAX_INODES) == Bits(d[1], MAX_INODES)[n := on];
    assert e[INODE_TABLE_BLOCK..DATA_START] == d[INODE_TABLE_BLOCK..DATA_START];
    assert e[DATA_START..] == d[DATA_START..];
  }

  lemma MirrorDataBit(d: Disk, v: Volume, b: nat, on: bool)
    requires Mirrors(d, v) && b < MAX_DATA
    ensures Mirrors(d[DATA_BITMAP_BLOCK := if on then SetBit(d[2], b) else ClearBit(d[2], b)], v.(dbits := v.dbits[b := on]))
  {
    var bm: Block := if on then SetBit(d[2], b) else ClearBit(d[2], b);
    var e: Disk := d[DATA_BITMAP_BLOCK := bm];
    MirrorsDecode(d, v);
    forall m | 0 <= m < MAX_DATA ensures TestBit(bm, m) == if m == b then on else TestBit(d[2], m) {
      TestSetBit(d[2], b, m);
      TestClearBit(d[2], b, m);
    }
    assert Bits(e[2], MAX_DATA) == Bits(d[2], MAX_DATA)[b := on];
    assert e[INODE_TABLE_BLOCK..DATA_START] == d[INODE_TABLE_BLOCK..DATA_START];
    assert e[DATA_START..] == d[DATA_START..];
  }

  lemma PutInTable(d: Disk, n: nat, i: Inode)
    requires n < TABLE_INODES
    ensures InodeTable(PutInode(d, n, i)[INODE_TABLE_BLOCK..DATA_START]) == InodeTable(d[INODE_TABLE_BLOCK..DATA_START])[n := i]
  {
    var t, u := InodeTable(d[INODE_TABLE_BLOCK..DATA_START]), InodeTable(PutInode(d, n, i)[INODE_TABLE_BLOCK..DATA_START]);
    forall m | 0 <= m < TABLE_INODES ensures u[m] == if m == n then i else t[m] {
      ReadBackInode(d, n, i, m);
    }
  }

  lemma MirrorInodeWrite(d: Disk, v: Volume, n: nat, i: Inode)
    requires Mirrors(d, v) && n < TABLE_INODES
    ensures Mirrors(PutInode(d, n, i), Reread(v.(inodes := v.inodes[n := i])))
  {
    MirrorsDecode(d, v);
    var e := PutInode(d, n, i);
    PutInTable(d, n, i);
    assert DATA_BITMAP_BLOCK < InodeBlock(n) < DATA_START;
    assert e[DATA_START..] == d[DATA_START..];
    var u: Volume := Unread(d);
    assert Unread(e) == u.(inodes := u.inodes[n := i]);
  }

  /** The volume after a write to inode number `n`, which for 384 to 511 lands in a data block. */
  ghost function AfterInodeWrite(d: Disk, v: Volume, n: nat, i: Inode): (w: Volume)
    requires n < MAX_INODES
  {
    if n < TABLE_INODES then Reread(v.(inodes := v.inodes[n := i])) else Decode(PutInode(d, n, i))
  }

  lemma MirrorPutInode(d: Disk, v: Volume, n: nat, i: Inode)
    requires Mirrors(d, v) && n < MAX_INODES
    ensures Mirrors(PutInode(d, n, i), AfterInodeWrite(d, v, n, i))
    ensures forall k :: 0 <= k < INODE_TABLE_BLOCK ==> PutInode(d, n, i)[k] == d[k]
  {
    if n < TABLE_INODES {
      MirrorInodeWrite(d, v, n, i);
    } else {
      MirrorsDecode(PutInode(d, n, i), Decode(PutInode(d, n, i)));
    }
  }

  lemma MirrorDataWrite(d: Disk, v: Volume, b: nat, blk: Block)
    requires Mirrors(d, v) && b < MAX_DATA
    ensures Mirrors(d[DATA_START + b := blk], Reread(v.(data := v.data[b := blk])))
  {
    MirrorsDecode(d, v);
    var e: Disk := d[DATA_START + b := blk];
    assert e[INODE_TABLE_BLOCK..DATA_START] == d[INODE_TABLE_BLOCK..DATA_START];
    assert e[DATA_START..] == d[DATA_START..][b := blk];
  }

  /** The table really holds 384 inodes: a write to number `n` leaves every data block alone
      for `n` below 384, and rewrites 80 bytes of data block `n / 6 - 64` for the 128 numbers above. */
  lemma InodeWriteTarget(d: Disk, n: nat, i: Inode)
    requires n < MAX_INODES
    ensures (forall j: Inode :: Decode(PutInode(d, n, j)).data == Decode(d).data) <==> n < TABLE_INODES
    ensures n >= TABLE_INODES ==>
              var b := n / 6 - 64;
              0 <= b < MAX_DATA && InodeBlock(n) == DATA_START + b
              && Decode(PutInode(d, n, i)).data == Decode(d).data[b := PutInode(d, n, i)[DATA_START + b]]
              && InodeIn(Decode(PutInode(d, n, i)).data[b], n) == i
  {
    if n < TABLE_INODES {
      forall j: Inode ensures Decode(PutInode(d, n, j)).data == Decode(d).data {
        MirrorsDecode(d, Decode(d));
        MirrorInodeWrite(d, Decode(d), n, j);
        MirrorsDecode(PutInode(d, n, j), Decode(PutInode(d, n, j)));
      }
    } else {
      var b := n / 6 - 64;
      ReadBackInode(d, n, i, n);
      assert PutInode(d, n, i)[DATA_START..] == d[DATA_START..][b := PutInode(d, n, i)[DATA_START + b]];
      var before := InodeAt(d, n);
      var other: Inode := before.(mode := if before.mode == 0 then 1 else 0);
      ReadBackInode(d, n, other, n);
      assert PutInode(d, n, other)[DATA_START + b] != d[DATA_START + b];
      assert Decode(PutInode(d, n, other)).data[b] != Decode(d).data[b];
    }
  }
}
