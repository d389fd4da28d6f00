/** What the invariant and the refinement of WitFS come to, in the terms of the file system itself. */
module WitFsTheorems {
  import opened Words
  import opened Layout
  import opened Volumes
  import opened VolumeBounds
  import opened VolumeSteps
  import opened FileSteps
  import opened WitFs
  import opened WitFsRuns

  // ---------------------------------------------------------------- block pointers

  /** Every nonzero pointer of a live inode is in range, allocated, and found in no other place; block 0
      is always allocated and so never handed out, which makes 0 an unambiguous null. */
  lemma PointersSound(v: Volume, pending: set<nat>, n: nat, i: nat)
    requires Consistent(v, pending) && Live(v, n) && i < DIRECT && v.inodes[n].blocks[i] != 0
    ensures v.inodes[n].blocks[i] < MAX_DATA && v.dbits[v.inodes[n].blocks[i]] && v.dbits[0]
    ensures forall m: nat, j: nat :: Live(v, m) && j < DIRECT && v.inodes[m].blocks[j] == v.inodes[n].blocks[i] ==> m == n && j == i
  {
    ConsistentParts(v, pending);
    var b: nat := v.inodes[n].blocks[i];
    assert Owns(v, n, i, b);
    forall m: nat, j: nat | Live(v, m) && j < DIRECT && v.inodes[m].blocks[j] == b ensures m == n && j == i {
      assert Owns(v, m, j, b);
    }
  }

  /** The nonzero pointers of a live inode come first, and reach at least to the end of its bytes. */
  lemma PointersCover(v: Volume, pending: set<nat>, n: nat)
    requires Consistent(v, pending) && Live(v, n)
    ensures var k := BlockPrefix(v.inodes[n]);
            && (v.inodes[n].size + 511) / 512 <= k
            && forall j :: 0 <= j < DIRECT ==> (v.inodes[n].blocks[j] != 0 <==> j < k)
  {
    ConsistentParts(v, pending);
    var i := v.inodes[n];
    assert GoodInode(i);
    PrefixCovers(i);
    var k := BlockPrefix(i);
    forall j | 0 <= j < DIRECT ensures i.blocks[j] != 0 <==> j < k {
      if k < j {
        assert i.blocks[k] == 0;
      }
    }
  }

  /** No allocated block but block 0 is out of a live inode's reach: nothing leaks. */
  lemma NothingLeaks(v: Volume, pending: set<nat>, b: nat)
    requires Consistent(v, pending) && 0 < b < MAX_DATA && v.dbits[b]
    ensures exists n: nat, i: nat :: Live(v, n) && i < DIRECT && v.inodes[n].blocks[i] == b
  {
    ConsistentParts(v, pending);
    var n: nat, i: nat :| Owns(v, n, i, b);
  }

  // ---------------------------------------------------------------- space

  /** While a file or directory is being created: at most 162 inodes and 1612 blocks. */
  lemma TransientBounds(v: Volume, n: nat)
    requires Consistent(v, {n}) && 0 < n < TABLE_INODES
    requires forall k :: 1 <= k < DIRECT ==> v.inodes[n].blocks[k] == 0
    ensures |LiveInodes(v)| <= 162 && |UsedBlocks(v)| <= 1612
  {
    InodeCount(v, {n});
    ReleaseKeeps(v, {n}, n);
    assert {n} - {n} == {};
    var w := Release(v, n);
    SpaceBounds(w);
    var b: nat := v.inodes[n].blocks[0];
    forall c | c in UsedBlocks(v) ensures c in UsedBlocks(w) + {b} {
      if c in v.inodes[n].blocks && c != 0 {
        var k :| 0 <= k < DIRECT && v.inodes[n].blocks[k] == c;
      }
    }
    SubsetSize(UsedBlocks(v), UsedBlocks(w) + {b});
  }

  /** The inode number that first fit gives a new file is at most 161, so its inode lies in the
      64-block table and writing it touches no data block. */
  lemma NewInodeNumber(v: Volume, n: nat)
    requires Consistent(v, {}) && n < MAX_INODES && !v.ibits[n] && forall m :: 0 <= m < n ==> v.ibits[m]
    ensures n <= 161 && InodeBlock(n) < DATA_START
  {
    InodeCount(v, {});
    AtLeast(LiveInodes(v), n);
  }

  // ---------------------------------------------------------------- long names

  lemma NamesShort(v: Volume, name: Name)
    requires SlotsGood(v)
    ensures name in Names(v) ==> |name| <= MAX_FILENAME
  {
  }

  /** A created name can be looked up exactly when it has at most 27 characters. */
  lemma CreatedFoundIff(v: Volume, w: Volume, n: u32, name: Name)
    requires Consistent(v, {n}) && Added(v, w, n, name) && Stored(name) !in Names(v)
    ensures name in Names(w) <==> |name| <= MAX_FILENAME
    ensures Stored(name) in Names(w)
  {
    assert Unfold(OfAdded, 0);
    ConsistentParts(v, {n});
    assert Names(w) == Files(w).Keys == Files(v).Keys + {Stored(name)};
    NamesShort(v, name);
  }

  /** So a name of 28 letters is gone as soon as it is created. */
  lemma LongNameLost(v: Volume, w: Volume, n: u32, name: Name)
    requires |name| == 28 && forall k :: 0 <= k < 28 ==> name[k] == 97
    requires Consistent(v, {n}) && Added(v, w, n, name) && Stored(name) !in Names(v)
    ensures name !in Names(w) && name[..27] in Names(w)
  {
    CreatedFoundIff(v, w, n, name);
    assert Stored(name) == name[..27];
  }

  /** And if its first 27 letters are a file already, storing it leaves an inconsistent volume. */
  lemma LongNameCollides(v: Volume, s: nat, n: u32, name: Name, now: u32)
    requires |name| == 28 && (forall k :: 0 <= k < 28 ==> name[k] == 97) && name[..27] in Names(v)
    requires Consistent(v, {n}) && s < ROOT_SLOTS && v.dir[s].inode == 0 && v.inodes[0].blocks[s / 16] != 0
    ensures v.inodes[0].blocks[s / 16] < MAX_DATA && !Consistent(Enter(v, s, n, name, now), {})
  {
    EnterSoundIff(v, s, n, name, now);
    assert Stored(name) == name[..27];
  }

  // ---------------------------------------------------------------- writing the root directory

  /** A write through a descriptor on the root that ends beyond its size, at no multiple of 32, leaves an
      inconsistent volume: the root's size no longer counts its entries. */
  lemma RootWriteBreaks(v: Volume, pos: nat, chunk: seq<byte>)
    requires pos < MAX_FILE_SIZE && v.inodes[0].blocks[pos / 512] < MAX_DATA && pos % 512 + |chunk| <= 512
    requires pos + |chunk| > v.inodes[0].size && (pos + |chunk|) % 32 != 0
    ensures !Consistent(Reread(Store(v, 0, pos, chunk)), {})
  {
    var w := Reread(Store(v, 0, pos, chunk));
    ConsistentParts(w, {});
    assert w.inodes[0].size == pos + |chunk|;
  }

  /** On a volume just formatted, `write / a` makes the directory list inode 97, which is not live. */
  lemma RootWriteExample(v: Volume, b: nat)
    requires Formatted(v) && DirRead(v) && 0 < b < MAX_DATA
    ensures var w := Reread(Store(Grow(v, 0, 0, b), 0, 0, [97]));
            w.dir[0].inode == 97 && !w.ibits[97] && !Consistent(w, {})
  {
    var g := Grow(v, 0, 0, b);
    RootWriteBreaks(g, 0, [97]);
    var w := Reread(Store(g, 0, 0, [97]));
    var data := Patch(ZERO_BLOCK, 0, [97]);
    assert data[0..4] == [97, 0, 0, 0];
    assert EntryInode(data, 0) == 97;
  }

  // ---------------------------------------------------------------- the calls

  /** The name a call may change. */
  function Target(a: Abstract, c: Call): (r: set<Name>) {
    match c
    case Create(path, _) => {NameOf(path)}
    case Unlink(path) => {NameOf(path)}
    case Open(path, _) => {NameOf(path)}
    case Write(fd, _) => if 0 <= fd < |a.fds| && a.fds[fd].Opened? then {a.fds[fd].name} else {}
    case Close(_) => {}
    case Read(_, _) => {}
    case Mount => {}
    case Format => a.files.Keys
  }

  lemma OthersKept(a: Abstract, c: Call, name: Name)
    requires name !in Target(a, c)
    ensures name in Do(a, c).0.files <==> name in a.files
    ensures name in a.files ==> Do(a, c).0.files[name] == a.files[name]
  {
  }

  /** No call on a mounted file system changes another file: of every name but the call's own, the
      presence and the bytes stay. */
  method OthersUntouched(fs: FileSystem, c: Call, now: u32, ghost a: Abstract) returns (x: Reply)
    requires fs.Valid() && fs.initialized && Shows(fs.vol, fs.openFiles, a) && Allowed(a, c)
    modifies fs, fs.disk`blocks, fs.disk.data, fs.inodeBitmap, fs.dataBitmap
    ensures fs.Valid() && fs.initialized && Shows(fs.vol, fs.openFiles, Do(a, c).0) && x == Do(a, c).1
    ensures forall name: Name :: name !in Target(a, c) ==>
              && (name in Files(fs.vol) <==> name in Files(old(fs.vol)))
              && (name in Files(fs.vol) ==> Files(fs.vol)[name] == Files(old(fs.vol))[name])
  {
    x := Step(fs, c, now, a);
    forall name: Name | name !in Target(a, c)
      ensures name in Do(a, c).0.files <==> name in a.files
      ensures name in a.files ==> Do(a, c).0.files[name] == a.files[name]
    {
      OthersKept(a, c, name);
    }
  }

  lemma {:induction false} FirstClosedIs(fds: seq<Descriptor>, k: nat)
    requires k <= |fds|
    ensures FirstClosed(fds, k) == -1 || (k <= FirstClosed(fds, k) < |fds| && fds[FirstClosed(fds, k)].Closed?)
    decreases |fds| - k
  {
    if k < |fds| {
      FirstClosedIs(fds, k + 1);
    }
  }

  /** Opening a new file with read, write and create, and writing to it, leaves the file with those bytes. */
  lemma Saved(a: Abstract, path: seq<byte>, buf: seq<byte>)
    requires FirstClosed(a.fds, 0) >= 0 && |buf| <= MAX_FILE_SIZE && NameOf(path) !in a.files && |a.files| < ROOT_SLOTS
    ensures var first := Do(a, Open(path, 7));
            first.1.code >= 0
            && Do(first.0, Write(first.1.code, buf)).0.files == a.files[NameOf(path) := buf]
            && |Do(first.0, Write(first.1.code, buf)).0.fds| == |a.fds|
  {
    FirstClosedIs(a.fds, 0);
    var name, fd := NameOf(path), FirstClosed(a.fds, 0);
    var b := Do(a, Open(path, 7)).0;
    assert BitOf(7, 2) && BitOf(7, 1);
    assert b.fds[fd] == Opened(name, 0, 7) && b.files[name] == [];
    assert Min(|buf|, MAX_FILE_SIZE - 0) == |buf| && buf[..|buf|] == buf;
    assert Overwrite([], 0, buf) == buf;
  }

  /** Opening a file and reading as many bytes as it has gives its bytes. */
  lemma Loaded(a: Abstract, path: seq<byte>)
    requires |a.fds| > 0 && FirstClosed(a.fds, 0) == 0 && NameOf(path) in a.files && |a.files[NameOf(path)]| <= MAX_FILE_SIZE
    ensures var bytes := a.files[NameOf(path)];
            && Do(a, Open(path, 1)).0.files == a.files
            && Allowed(Do(a, Open(path, 1)).0, Read(0, |bytes|))
            && Do(Do(a, Open(path, 1)).0, Read(0, |bytes|)).1 == Reply(|bytes|, bytes)
            && Do(Do(a, Open(path, 1)).0, Read(0, |bytes|)).0.files == a.files
  {
    var name := NameOf(path);
    var b := Do(a, Open(path, 1)).0;
    assert BitOf(1, 0);
    assert b.fds[0] == Opened(name, 0, 1);
    assert a.files[name][0..|a.files[name]|] == a.files[name];
  }

  /** On the disk: a new file is opened and written, the file system is mounted again, and the
      file is reopened and read. The bytes read are the bytes written, and no other file has changed. */
  method SaveAndLoad(fs: FileSystem, path: seq<byte>, buf: seq<byte>, now: u32, ghost a: Abstract) returns (bytes: seq<byte>)
    requires fs.Valid() && fs.initialized && Shows(fs.vol, fs.openFiles, a) && GoodPath(path)
    requires FirstClosed(a.fds, 0) >= 0 && |buf| <= MAX_FILE_SIZE && NameOf(path) !in a.files && |a.files| < ROOT_SLOTS
    modifies fs, fs.disk`blocks, fs.disk.data, fs.inodeBitmap, fs.dataBitmap
    ensures fs.Valid() && fs.initialized && bytes == buf
    ensures Files(fs.vol) == Files(old(fs.vol))[NameOf(path) := buf]
  {
    FirstClosedIs(a.fds, 0);
    Saved(a, path, buf);
    var x := Step(fs, Open(path, 7), now, a);
    ghost var b := Do(a, Open(path, 7)).0;
    var _ := Step(fs, Write(x.code, buf), now, b);
    ghost var c := Do(b, Write(x.code, buf)).0;
    bytes := MountAndLoad(fs, path, |buf|, now, c);
  }

  method MountAndLoad(fs: FileSystem, path: seq<byte>, size: u32, now: u32, ghost a: Abstract) returns (bytes: seq<byte>)
    requires fs.Valid() && fs.initialized && Shows(fs.vol, fs.openFiles, a) && GoodPath(path) && |a.fds| > 0
    requires NameOf(path) in a.files && size == |a.files[NameOf(path)]| <= MAX_FILE_SIZE
    modifies fs, fs.disk`blocks, fs.disk.data, fs.inodeBitmap, fs.dataBitmap
    ensures fs.Valid() && fs.initialized && bytes == a.files[NameOf(path)] && Files(fs.vol) == a.files
  {
    var _ := Step(fs, Mount, now, a);
    ghost var b := Do(a, Mount).0;
    assert FirstClosed(b.fds, 0) == 0;
    bytes := OpenAndRead(fs, path, size, now, b);
  }

  method OpenAndRead(fs: FileSystem, path: seq<byte>, size: u32, now: u32, ghost a: Abstract) returns (bytes: seq<byte>)
    requires fs.Valid() && fs.initialized && Shows(fs.vol, fs.openFiles, a) && GoodPath(path)
    requires |a.fds| > 0 && FirstClosed(a.fds, 0) == 0
    requires NameOf(path) in a.files && size == |a.files[NameOf(path)]| <= MAX_FILE_SIZE
    modifies fs, fs.disk`blocks, fs.disk.data, fs.inodeBitmap, fs.dataBitmap
    ensures fs.Valid() && fs.initialized && bytes == a.files[NameOf(path)] && Files(fs.vol) == a.files
  {
    Loaded(a, path);
    var _ := Step(fs, Open(path, 1), now, a);
    var x := Step(fs, Read(0, size), now, Do(a, Open(path, 1)).0);
    bytes := x.bytes;
  }

  // ---------------------------------------------------------------- flags and positions

  /** Bit 0 of the flags of an open lets its descriptor read, bit 1 lets it write, bit 2 makes the file. */
  lemma FlagsDecide(a: Abstract, fd: int, size: u32, buf: seq<byte>, path: seq<byte>, flags: u32)
    ensures Do(a, Read(fd, size)).1.code == -1 <==>
            !(0 <= fd < |a.fds| && a.fds[fd].Opened? && a.fds[fd].name in a.files && a.fds[fd].flags % 2 == 1)
    ensures Do(a, Write(fd, buf)).1.code == -1 <==>
            !(0 <= fd < |a.fds| && a.fds[fd].Opened? && a.fds[fd].name in a.files && a.fds[fd].flags / 2 % 2 == 1
              && a.fds[fd].position <= |a.files[a.fds[fd].name]| && a.fds[fd].position <= 5120)
    ensures Do(a, Open(path, flags)).0.files == if NameOf(path) !in a.files && flags / 4 % 2 == 1 && |a.files| < 160
                                                then a.files[NameOf(path) := []] else a.files
  {
    LowBits(flags);
    if 0 <= fd < |a.fds| && a.fds[fd].Opened? {
      LowBits(a.fds[fd].flags);
    }
  }

  /** What one descriptor writes, another at the same position reads, as far as 5120 bytes reach; all other
      bytes of the file stay. */
  lemma WriteThenRead(a: Abstract, fd: nat, reader: nat, buf: seq<byte>)
    requires Accessible(a, fd, 1) && Accessible(a, reader, 0) && fd != reader
    requires a.fds[fd].name == a.fds[reader].name && a.fds[fd].position == a.fds[reader].position
    requires a.fds[fd].position <= |a.files[a.fds[fd].name]| && a.fds[fd].position < 5120 && 0 < |buf| < WORD_LIMIT
    ensures var (b, w), name, pos := Do(a, Write(fd, buf)), a.fds[fd].name, a.fds[fd].position;
            && w.code == Min(|buf|, 5120 - pos) && Do(b, Read(reader, w.code)).1 == Reply(w.code, buf[..w.code])
            && b.fds[fd].Opened? && b.fds[fd].position == pos + w.code && name in b.files
            && (forall k :: 0 <= k < |a.files[name]| && !(pos <= k < pos + w.code) ==>
                  k < |b.files[name]| && b.files[name][k] == a.files[name][k])
  {
    var (b, w) := Do(a, Write(fd, buf));
    var name, pos := a.fds[fd].name, a.fds[fd].position;
    assert b.files[name] == Overwrite(a.files[name], pos, buf[..w.code]);
    assert b.files[name][pos..pos + w.code] == buf[..w.code];
  }

  // ---------------------------------------------------------------- paths

  /** The two ways to write a name in a path. */
  function Spelled(name: Name, slash: bool): (path: seq<byte>) {
    if slash then [47] + name else name
  }

  /** They mean the same to every call. */
  lemma SpelledAlike(a: Abstract, name: Name, slash: bool, kind: u32, flags: u32)
    requires name == [] || name[0] != 47
    ensures Do(a, Create(Spelled(name, slash), kind)) == Do(a, Create(name, kind))
    ensures Do(a, Open(Spelled(name, slash), flags)) == Do(a, Open(name, flags))
    ensures Do(a, Unlink(Spelled(name, slash))) == Do(a, Unlink(name))
  {
    SlashDropped(name);
  }

  lemma SpelledGood(name: Name, slash: bool)
    requires 1 <= |name| <= 27 && 0 !in name && name[0] != 47
    ensures GoodPath(Spelled(name, slash)) && NameOf(Spelled(name, slash)) == name
  {
    SlashDropped(name);
  }

  lemma CreatedThenOpened(a: Abstract, name: Name, slash: bool, slash': bool, kind: u32, flags: u32) returns (b: Abstract, c: Abstract, fd: nat)
    requires FirstClosed(a.fds, 0) >= 0 && name !in a.files && |a.files| < ROOT_SLOTS && (name == [] || name[0] != 47)
    ensures b == Abstract(a.files[name := []], a.fds) && Do(a, Create(Spelled(name, slash), kind)) == (b, Reply(0, []))
    ensures fd < |a.fds| && Do(b, Open(Spelled(name, slash'), flags)) == (c, Reply(fd, []))
    ensures Do(c, Close(fd)) == (b, Reply(0, []))
  {
    SlashDropped(name);
    FirstClosedIs(a.fds, 0);
    b := Abstract(a.files[name := []], a.fds);
    fd := FirstClosed(a.fds, 0);
    c := Abstract(b.files, a.fds[fd := Opened(name, 0, flags)]);
    assert c.fds[fd := Closed] == a.fds;
  }

  /** A file created under one spelling is opened under any other, closed again, ... */
  method CreateAndOpen(fs: FileSystem, name: Name, slash: bool, slash': bool, kind: u32, flags: u32, now: u32, ghost a: Abstract)
    returns (made: int, fd: int)
    requires fs.Valid() && fs.initialized && Shows(fs.vol, fs.openFiles, a) && FirstClosed(a.fds, 0) >= 0
    requires 1 <= |name| <= 27 && 0 !in name && name[0] != 47 && name !in a.files && |a.files| < ROOT_SLOTS
    modifies fs`superblock, fs`vol, fs`openFiles, fs.inodeBitmap, fs.dataBitmap, fs.disk`blocks, fs.disk.data
    ensures fs.Valid() && Shows(fs.vol, fs.openFiles, Abstract(a.files[name := []], a.fds))
    ensures made == 0 && 0 <= fd < 16
  {
    SpelledGood(name, slash);
    SpelledGood(name, slash');
    ghost var b, c, n := CreatedThenOpened(a, name, slash, slash', kind, flags);
    var x := StepCreate(fs, Spelled(name, slash), kind, now, a);
    var y := StepOpen(fs, Spelled(name, slash'), flags, now, b);
    var _ := StepClose(fs, y.code, c);
    made, fd := x.code, y.code;
  }

  lemma ThenUnlinked(a: Abstract, name: Name, slash: bool)
    requires name !in a.files && (name == [] || name[0] != 47)
    ensures Do(Abstract(a.files[name := []], a.fds), Unlink(Spelled(name, slash))) == (a, Reply(0, []))
  {
    SlashDropped(name);
    assert a.files[name := []] - {name} == a.files;
  }

  lemma ShownNames(v: Volume, files: seq<OpenFile>, a: Abstract)
    requires Shows(v, files, a)
    ensures forall k :: 0 <= k < |a.fds| && a.fds[k].Opened? ==> a.fds[k].name in a.files
  {
    forall k | 0 <= k < |a.fds| && a.fds[k].Opened? ensures a.fds[k].name in a.files {
      assert FdShows(v, files[k], a.fds[k]);
    }
  }

  /** ... and unlinked under any other: each call succeeds, and the files are those from before. */
  method EitherSpelling(fs: FileSystem, name: Name, slash: bool, slash': bool, slash'': bool, kind: u32, flags: u32, now: u32,
                        ghost a: Abstract) returns (made: int, fd: int, gone: int)
    requires fs.Valid() && fs.initialized && Shows(fs.vol, fs.openFiles, a) && FirstClosed(a.fds, 0) >= 0
    requires 1 <= |name| <= 27 && 0 !in name && name[0] != 47 && name !in a.files && |a.files| < ROOT_SLOTS
    modifies fs`superblock, fs`vol, fs`openFiles, fs.inodeBitmap, fs.dataBitmap, fs.disk`blocks, fs.disk.data
    ensures fs.Valid() && Shows(fs.vol, fs.openFiles, a)
    ensures made == 0 && 0 <= fd < 16 && gone == 0 && Files(fs.vol) == Files(old(fs.vol))
  {
    SpelledGood(name, slash'');
    ShownNames(fs.vol, fs.openFiles, a);
    ThenUnlinked(a, name, slash'');
    made, fd := CreateAndOpen(fs, name, slash, slash', kind, flags, now, a);
    assert forall k :: 0 <= k < |a.fds| && a.fds[k].Opened? ==> a.fds[k].name != name;
    var z := StepUnlink(fs, Spelled(name, slash''), now, Abstract(a.files[name := []], a.fds));
    gone := z.code;
  }
}
