/** WitFS over whole runs: the calls, executed on the disk blocks, bit maps and inodes of
    `WitFs.FileSystem`, refine a machine that knows only a map from names to bytes and a
    table of descriptors. */
module WitFsRuns {
  import opened Words
  import opened Layout
  import opened Volumes
  import opened VolumeBounds
  import opened VolumeSteps
  import opened FileSteps
  import opened WitFs

  // ---------------------------------------------------------------- the abstract machine

  datatype Descriptor = Closed | Opened(name: Name, position: nat, flags: u32)

  datatype Abstract = Abstract(files: map<Name, seq<byte>>, fds: seq<Descriptor>)

  /** The calls of a run. Formatting is always followed by mounting. */
  datatype Call =
    | Create(path: seq<byte>, kind: u32)
    | Unlink(path: seq<byte>)
    | Open(path: seq<byte>, flags: u32)
    | Close(fd: int)
    | Read(fd: int, size: u32)
    | Write(fd: int, buf: seq<byte>)
    | Mount
    | Format

  /** What a call returns: a code, and for a read the bytes. */
  datatype Reply = Reply(code: int, bytes: seq<byte>)

  const FAIL: Reply := Reply(-1, [])

  const EMPTY: Abstract := Abstract(map[], Repeat(16, Closed))

  function FirstClosed(fds: seq<Descriptor>, k: nat): (r: int)
    requires k <= |fds|
    decreases |fds| - k
  {
    if k == |fds| then -1 else if fds[k].Closed? then k else FirstClosed(fds, k + 1)
  }

  predicate Accessible(a: Abstract, fd: int, bit: nat) {
    0 <= fd < |a.fds| && a.fds[fd].Opened? && a.fds[fd].name in a.files && BitOf(a.fds[fd].flags, bit)
  }

  function Do(a: Abstract, c: Call): (r: (Abstract, Reply)) {
    match c
    case Create(path, _) =>
      var name := NameOf(path);
      if name in a.files || |a.files| >= ROOT_SLOTS then (a, FAIL)
      else (a.(files := a.files[name := []]), Reply(0, []))
    case Unlink(path) =>
      if NameOf(path) !in a.files then (a, FAIL) else (a.(files := a.files - {NameOf(path)}), Reply(0, []))
    case Open(path, flags) =>
      var name := NameOf(path);
      var files := if name !in a.files && BitOf(flags, 2) && |a.files| < ROOT_SLOTS then a.files[name := []] else a.files;
      var fd := FirstClosed(a.fds, 0);
      if name !in files || fd < 0 || fd >= |a.fds| then (a.(files := files), FAIL)
      else (Abstract(files, a.fds[fd := Opened(name, 0, flags)]), Reply(fd, []))
    case Close(fd) =>
      if 0 <= fd < |a.fds| && a.fds[fd].Opened? then (a.(fds := a.fds[fd := Closed]), Reply(0, [])) else (a, FAIL)
    case Read(fd, size) =>
      if !Accessible(a, fd, 0) then (a, FAIL)
      else
        var d := a.fds[fd];
        var n := if d.position >= |a.files[d.name]| then 0 else Min(size, |a.files[d.name]| - d.position);
        (a.(fds := a.fds[fd := d.(position := d.position + n)]),
         Reply(n, if n == 0 then [] else a.files[d.name][d.position..d.position + n]))
    case Write(fd, buf) =>
      if !Accessible(a, fd, 1) then (a, FAIL)
      else
        var d := a.fds[fd];
        if d.position > |a.files[d.name]| || d.position > MAX_FILE_SIZE then (a, FAIL)
        else
          var n := Min(|buf|, MAX_FILE_SIZE - d.position);
          (Abstract(a.files[d.name := Overwrite(a.files[d.name], d.position, buf[..n])],
                    a.fds[fd := d.(position := d.position + n)]),
           Reply(n, []))
    case Mount => (a.(fds := Repeat(|a.fds|, Closed)), Reply(0, []))
    case Format => (EMPTY, Reply(0, []))
  }

  /** Names have 1 to 27 characters, none of them NUL. */
  predicate GoodPath(path: seq<byte>) {
    0 !in path && 1 <= |NameOf(path)| <= MAX_FILENAME
  }

  /** The calls under which WitFS is a map from names to bytes: names that are stored whole, no
      unlinking of an open file, and reads whose sum does not wrap. Nothing in the kernel keeps the shell
      to them; what happens otherwise is proved call by call. */
  ghost predicate Allowed(a: Abstract, c: Call) {
    match c
    case Create(path, _) => GoodPath(path)
    case Unlink(path) => GoodPath(path) && forall k :: 0 <= k < |a.fds| && a.fds[k].Opened? ==> a.fds[k].name != NameOf(path)
    case Open(path, _) => GoodPath(path)
    case Close(_) => true
    case Read(fd, size) => Accessible(a, fd, 0) ==> a.fds[fd].position + size < WORD_LIMIT
    case Write(_, buf) => |buf| < WORD_LIMIT
    case Mount => true
    case Format => true
  }

  // ---------------------------------------------------------------- runs of it

  ghost predicate AllowedRun(a: Abstract, cs: seq<Call>)
    decreases |cs|
  {
    cs != [] ==> Allowed(a, cs[0]) && AllowedRun(Do(a, cs[0]).0, cs[1..])
  }

  function DoAll(a: Abstract, cs: seq<Call>): (r: (Abstract, seq<Reply>))
    decreases |cs|
  {
    if cs == [] then (a, [])
    else
      var (b, x) := Do(a, cs[0]);
      var (z, xs) := DoAll(b, cs[1..]);
      (z, [x] + xs)
  }

  // ---------------------------------------------------------------- representation

  ghost predicate FdShows(v: Volume, f: OpenFile, d: Descriptor) {
    if f.inUse then
      d.Opened? && d.position == f.position && d.flags == f.flags && d.name in Names(v) && Lookup(v, d.name) == f.inode
    else d.Closed?
  }

  ghost predicate Shows(v: Volume, files: seq<OpenFile>, a: Abstract) {
    && a.files == Files(v) && |a.fds| == |files| == MAX_OPEN
    && forall k :: 0 <= k < MAX_OPEN ==> FdShows(v, files[k], a.fds[k])
  }

  lemma SameFds(v: Volume, w: Volume, files: seq<OpenFile>, a: Abstract, gone: set<Name>)
    requires Shows(v, files, a) && Kept(v, w, gone)
    requires forall k :: 0 <= k < MAX_OPEN && a.fds[k].Opened? ==> a.fds[k].name !in gone
    ensures Shows(w, files, a.(files := Files(w)))
  {
    KeptIs(v, w, gone);
    forall k | 0 <= k < MAX_OPEN ensures FdShows(w, files[k], a.fds[k]) {
      assert FdShows(v, files[k], a.fds[k]);
    }
  }

  lemma SetFd(v: Volume, files: seq<OpenFile>, a: Abstract, k: nat, f: OpenFile, d: Descriptor)
    requires Shows(v, files, a) && k < MAX_OPEN && FdShows(v, f, d)
    ensures Shows(v, files[k := f], a.(fds := a.fds[k := d]))
  {
    var files', fds' := files[k := f], a.fds[k := d];
    forall j | 0 <= j < MAX_OPEN ensures FdShows(v, files'[j], fds'[j]) {
      assert FdShows(v, files[j], a.fds[j]);
    }
  }

  lemma SameFirstClosed(v: Volume, files: seq<OpenFile>, a: Abstract, k: nat)
    requires Shows(v, files, a) && k <= MAX_OPEN
    ensures FirstClosed(a.fds, k) == FreeFdFrom(files, k)
    decreases MAX_OPEN - k
  {
    if k < MAX_OPEN {
      assert FdShows(v, files[k], a.fds[k]);
      SameFirstClosed(v, files, a, k + 1);
    }
  }

  /** The file a descriptor shows is the one its inode holds. */
  lemma ShownFile(v: Volume, files: seq<OpenFile>, a: Abstract, k: nat)
    requires Shows(v, files, a) && Consistent(v, {}) && k < MAX_OPEN && files[k].inUse
    ensures a.fds[k].Opened? && a.fds[k].name in a.files && 0 < files[k].inode < TABLE_INODES && Listed(v, files[k].inode)
    ensures v.dir[SlotListing(v, files[k].inode)].name == a.fds[k].name
    ensures a.files[a.fds[k].name] == Contents(v, v.inodes[files[k].inode])
    ensures GoodInode(v.inodes[files[k].inode])
  {
    assert FdShows(v, files[k], a.fds[k]);
    var name := a.fds[k].name;
    ConsistentParts(v, {});
    LookupLive(v, name);
    FilesAt(v, SlotNamed(v, name));
    assert SlotListing(v, files[k].inode) == SlotNamed(v, name);
    assert GoodInode(v.inodes[files[k].inode]);
  }

  /** A read as the abstract machine does it. */
  lemma ReadDoes(a: Abstract, k: nat, size: u32, r: nat, bytes: seq<byte>)
    requires k < |a.fds| && a.fds[k].Opened? && a.fds[k].name in a.files && BitOf(a.fds[k].flags, 0)
    requires var d, all := a.fds[k], a.files[a.fds[k].name];
             && r == (if d.position >= |all| then 0 else Min(size, |all| - d.position))
             && bytes == (if r == 0 then [] else all[d.position..d.position + r])
    ensures Do(a, Read(k, size)) == (a.(fds := a.fds[k := a.fds[k].(position := a.fds[k].position + r)]), Reply(r, bytes))
  {
  }

  lemma ShownRead(v: Volume, files: seq<OpenFile>, a: Abstract, k: nat, size: u32)
    requires Shows(v, files, a) && Consistent(v, {}) && k < MAX_OPEN && files[k].inUse && BitOf(files[k].flags, 0)
    requires files[k].position + size < WORD_LIMIT
    ensures files[k].inode < TABLE_INODES
    ensures var i, r := v.inodes[files[k].inode], ReadCount(v.inodes[files[k].inode], files[k].position, size);
            && Shows(v, files[k := Advanced(files[k], r)], Do(a, Read(k, size)).0)
            && Do(a, Read(k, size)).1 == Reply(r, BytesFrom(v, i, files[k].position, r))
  {
    ShownFile(v, files, a, k);
    assert FdShows(v, files[k], a.fds[k]);
    var i, pos := v.inodes[files[k].inode], files[k].position;
    var r := ReadCount(i, pos, size);
    if pos < i.size {
      ReadCountExact(i, pos, size);
      BytesOfFile(v, i, pos, r);
    }
    assert BytesFrom(v, i, pos, 0) == [];
    ReadDoes(a, k, size, r, BytesFrom(v, i, pos, r));
    KeptSame(v, v);
    ShownAdvanced(v, v, files, a, k, r);
  }

  /** An open as the abstract machine does it. */
  lemma OpenDoes(a: Abstract, path: seq<byte>, flags: u32, files: map<Name, seq<byte>>, r: int)
    requires files == if NameOf(path) !in a.files && BitOf(flags, 2) && |a.files| < ROOT_SLOTS
                      then a.files[NameOf(path) := []] else a.files
    requires r == FirstClosed(a.fds, 0) < |a.fds|
    ensures Do(a, Open(path, flags)) == if NameOf(path) in files && r >= 0
                                        then (Abstract(files, a.fds[r := Opened(NameOf(path), 0, flags)]), Reply(r, []))
                                        else (a.(files := files), FAIL)
  {
  }

  lemma ShownOpen(v: Volume, w: Volume, files: seq<OpenFile>, a: Abstract, path: seq<byte>, flags: u32, r: int)
    requires Shows(v, files, a) && Consistent(w, {}) && Kept(v, w, {}) && GoodPath(path) && r == FreeFd(files)
    requires Files(w) == if NameOf(path) !in Files(v) && BitOf(flags, 2) && |Files(v)| < ROOT_SLOTS
                         then Files(v)[NameOf(path) := []] else Files(v)
    ensures var b, x := Do(a, Open(path, flags)).0, Do(a, Open(path, flags)).1;
            if NameOf(path) in Files(w) && r >= 0 then
              var n := Lookup(w, NameOf(path));
              0 <= n < TABLE_INODES && Shows(w, files[r := OpenFile(n, 0, flags, true)], b) && x == Reply(r, [])
            else Shows(w, files, b) && x == FAIL
  {
    SameFds(v, w, files, a, {});
    SameFirstClosed(v, files, a, 0);
    OpenDoes(a, path, flags, Files(w), r);
    if NameOf(path) in Files(w) && r >= 0 {
      LookupLive(w, NameOf(path));
      SetFd(w, files, a.(files := Files(w)), r, OpenFile(Lookup(w, NameOf(path)), 0, flags, true), Opened(NameOf(path), 0, flags));
    }
  }

  /** A write as the abstract machine does it. */
  lemma WriteDoes(a: Abstract, k: nat, buf: seq<byte>, r: nat)
    requires k < |a.fds| && a.fds[k].Opened? && a.fds[k].name in a.files && BitOf(a.fds[k].flags, 1)
    requires a.fds[k].position <= |a.files[a.fds[k].name]| && a.fds[k].position <= MAX_FILE_SIZE
    requires r == Min(|buf|, MAX_FILE_SIZE - a.fds[k].position)
    ensures var d := a.fds[k];
            Do(a, Write(k, buf)) == (Abstract(a.files[d.name := Overwrite(a.files[d.name], d.position, buf[..r])],
                                              a.fds[k := d.(position := d.position + r)]), Reply(r, []))
  {
  }

  lemma ShownWrite(v: Volume, w: Volume, files: seq<OpenFile>, a: Abstract, k: nat, buf: seq<byte>, r: int)
    requires Shows(v, files, a) && Consistent(v, {}) && Consistent(w, {})
    requires k < MAX_OPEN && files[k].inUse && BitOf(files[k].flags, 1) && Wrote(v, w, files[k], buf, r) && 0 <= r
    ensures Shows(w, files[k := Advanced(files[k], r)], Do(a, Write(k, buf)).0)
    ensures Do(a, Write(k, buf)).1 == Reply(r, [])
  {
    WroteIs(v, w, files[k], buf, r);
    ShownFile(v, files, a, k);
    KeptSame(v, w);
    assert FdShows(v, files[k], a.fds[k]);
    WriteDoes(a, k, buf, r);
    ShownAdvanced(v, w, files, a, k, r);
  }

  /** A volume with the same names, and one descriptor further on. */
  lemma ShownAdvanced(v: Volume, w: Volume, files: seq<OpenFile>, a: Abstract, k: nat, r: nat)
    requires Shows(v, files, a) && Kept(v, w, {}) && k < MAX_OPEN && files[k].inUse && files[k].position + r < WORD_LIMIT
    ensures a.fds[k].Opened?
    ensures Shows(w, files[k := Advanced(files[k], r)],
                  Abstract(Files(w), a.fds[k := a.fds[k].(position := a.fds[k].position + r)]))
  {
    assert FdShows(v, files[k], a.fds[k]);
    KeptIs(v, w, {});
    SameFds(v, w, files, a, {});
    var f, d := Advanced(files[k], r), a.fds[k].(position := a.fds[k].position + r);
    assert FdShows(w, f, d);
    SetFd(w, files, a.(files := Files(w)), k, f, d);
  }

  lemma NotOpen(v: Volume, files: seq<OpenFile>, a: Abstract, name: Name)
    requires Shows(v, files, a) && Consistent(v, {})
    requires forall k :: 0 <= k < MAX_OPEN && a.fds[k].Opened? ==> a.fds[k].name != name
    ensures forall k :: 0 <= k < MAX_OPEN && files[k].inUse ==> files[k].inode != Lookup(v, name)
  {
    forall k | 0 <= k < MAX_OPEN && files[k].inUse ensures files[k].inode != Lookup(v, name) {
      assert FdShows(v, files[k], a.fds[k]);
      LookupApart(v, name, a.fds[k].name);
    }
  }

  lemma LookupApart(v: Volume, x: Name, y: Name)
    requires Consistent(v, {}) && x != y && y in Names(v)
    ensures Lookup(v, x) != Lookup(v, y)
  {
    ConsistentParts(v, {});
  }

  lemma FdAccess(v: Volume, files: seq<OpenFile>, a: Abstract, fd: int)
    requires Shows(v, files, a) && Consistent(v, {})
    ensures forall bit: nat :: Accessible(a, fd, bit) <==> 0 <= fd < MAX_OPEN && files[fd].inUse && BitOf(files[fd].flags, bit)
    ensures 0 <= fd < MAX_OPEN && files[fd].inUse ==> files[fd].inode != 0 && files[fd].position == a.fds[fd].position
  {
    if 0 <= fd < MAX_OPEN {
      assert FdShows(v, files[fd], a.fds[fd]);
      if files[fd].inUse {
        ShownFile(v, files, a, fd);
      }
    }
  }

  // ---------------------------------------------------------------- the refinement

  method StepCreate(fs: FileSystem, path: seq<byte>, kind: u32, now: u32, ghost a: Abstract) returns (x: Reply)
    requires fs.Valid() && fs.initialized && Shows(fs.vol, fs.openFiles, a) && Allowed(a, Create(path, kind))
    modifies fs`superblock, fs`vol, fs.inodeBitmap, fs.dataBitmap, fs.disk`blocks, fs.disk.data
    ensures fs.Valid() && Shows(fs.vol, fs.openFiles, Do(a, Create(path, kind)).0) && x == Do(a, Create(path, kind)).1
    ensures fs.InodeDrift() == old(fs.InodeDrift()) && fs.BlockDrift() == old(fs.BlockDrift())
  {
    ghost var v := fs.vol;
    var r := fs.FsCreate(path, kind, now);
    SameFds(v, fs.vol, fs.openFiles, a, {});
    return Reply(r, []);
  }

  method StepUnlink(fs: FileSystem, path: seq<byte>, now: u32, ghost a: Abstract) returns (x: Reply)
    requires fs.Valid() && fs.initialized && Shows(fs.vol, fs.openFiles, a) && Allowed(a, Unlink(path))
    modifies fs`superblock, fs`vol, fs.inodeBitmap, fs.dataBitmap, fs.disk`blocks, fs.disk.data
    ensures fs.Valid() && Shows(fs.vol, fs.openFiles, Do(a, Unlink(path)).0) && x == Do(a, Unlink(path)).1
    ensures fs.InodeDrift() == old(fs.InodeDrift()) && fs.BlockDrift() == old(fs.BlockDrift())
  {
    ghost var v := fs.vol;
    NotOpen(v, fs.openFiles, a, NameOf(path));
    var r := fs.FsUnlink(path, now);
    if r == 0 {
      SameFds(v, fs.vol, fs.openFiles, a, {NameOf(path)});
    }
    return Reply(r, []);
  }

  method StepOpen(fs: FileSystem, path: seq<byte>, flags: u32, now: u32, ghost a: Abstract) returns (x: Reply)
    requires fs.Valid() && fs.initialized && Shows(fs.vol, fs.openFiles, a) && Allowed(a, Open(path, flags))
    modifies fs`superblock, fs`vol, fs`openFiles, fs.inodeBitmap, fs.dataBitmap, fs.disk`blocks, fs.disk.data
    ensures fs.Valid() && Shows(fs.vol, fs.openFiles, Do(a, Open(path, flags)).0) && x == Do(a, Open(path, flags)).1
    ensures fs.InodeDrift() == old(fs.InodeDrift()) && fs.BlockDrift() == old(fs.BlockDrift())
  {
    ghost var v, files := fs.vol, fs.openFiles;
    var r := fs.FsOpen(path, flags, now);
    ShownOpen(v, fs.vol, files, a, path, flags, FreeFd(files));
    return Reply(r, []);
  }

  method StepClose(fs: FileSystem, fd: int, ghost a: Abstract) returns (x: Reply)
    requires fs.Valid() && fs.initialized && Shows(fs.vol, fs.openFiles, a) && Allowed(a, Close(fd))
    modifies fs`openFiles
    ensures fs.Valid() && Shows(fs.vol, fs.openFiles, Do(a, Close(fd)).0) && x == Do(a, Close(fd)).1
  {
    if 0 <= fd < MAX_OPEN {
      assert FdShows(fs.vol, fs.openFiles[fd], a.fds[fd]);
      SetFd(fs.vol, fs.openFiles, a, fd, fs.openFiles[fd].(inUse := false), Closed);
    }
    var r := fs.FsClose(fd);
    return Reply(r, []);
  }

  method StepRead(fs: FileSystem, fd: int, size: u32, ghost a: Abstract) returns (x: Reply)
    requires fs.Valid() && fs.initialized && Shows(fs.vol, fs.openFiles, a) && Allowed(a, Read(fd, size))
    modifies fs`openFiles
    ensures fs.Valid() && Shows(fs.vol, fs.openFiles, Do(a, Read(fd, size)).0) && x == Do(a, Read(fd, size)).1
  {
    FdAccess(fs.vol, fs.openFiles, a, fd);
    ghost var files := fs.openFiles;
    var r, buf := fs.FsRead(fd, size);
    if r >= 0 {
      ShownRead(fs.vol, files, a, fd, size);
    }
    return Reply(r, buf);
  }

  method StepWrite(fs: FileSystem, fd: int, buf: seq<byte>, now: u32, ghost a: Abstract) returns (x: Reply)
    requires fs.Valid() && fs.initialized && Shows(fs.vol, fs.openFiles, a) && Allowed(a, Write(fd, buf))
    modifies fs`superblock, fs`vol, fs`openFiles, fs.dataBitmap, fs.disk`blocks, fs.disk.data
    ensures fs.Valid() && Shows(fs.vol, fs.openFiles, Do(a, Write(fd, buf)).0) && x == Do(a, Write(fd, buf)).1
    ensures fs.InodeDrift() == old(fs.InodeDrift()) && fs.BlockDrift() == old(fs.BlockDrift())
  {
    FdAccess(fs.vol, fs.openFiles, a, fd);
    ghost var v, files := fs.vol, fs.openFiles;
    var r := fs.FsWrite(fd, buf, now);
    if r >= 0 {
      ShownWrite(v, fs.vol, files, a, fd, buf, r);
    }
    return Reply(r, []);
  }

  method StepMount(fs: FileSystem, ghost a: Abstract) returns (x: Reply)
    requires fs.Valid() && fs.initialized && Shows(fs.vol, fs.openFiles, a)
    modifies fs
    ensures fs.Valid() && fs.initialized && Shows(fs.vol, fs.openFiles, Do(a, Mount).0) && x == Do(a, Mount).1
    ensures fs.inodeBitmap == old(fs.inodeBitmap) || fresh(fs.inodeBitmap)
    ensures fs.dataBitmap == old(fs.dataBitmap) || fresh(fs.dataBitmap)
  {
    SavedSuperIs(fs.disk.blocks[0]);
    ghost var v := fs.vol;
    fs.FsInit();
    SameVolume(fs.disk.blocks, v, fs.vol);
    return Reply(0, []);
  }

  /** A formatted and mounted file system represents no files and no open descriptors. */
  method StepFormat(fs: FileSystem, now: u32) returns (x: Reply)
    requires fs.disk.Valid() && fs.disk.initialized && fs.Buffers() && |fs.openFiles| == MAX_OPEN
    modifies fs, fs.disk`blocks, fs.disk.data, fs.inodeBitmap, fs.dataBitmap
    ensures fs.Valid() && fs.initialized && Shows(fs.vol, fs.openFiles, EMPTY) && x == Reply(0, [])
    ensures fs.InodeDrift() == 0 && fs.BlockDrift() == 0
    ensures fs.inodeBitmap == old(fs.inodeBitmap) || fresh(fs.inodeBitmap)
    ensures fs.dataBitmap == old(fs.dataBitmap) || fresh(fs.dataBitmap)
  {
    fs.FsFormat(now);
    SavedSuperIs(fs.disk.blocks[0]);
    ghost var v := fs.vol;
    fs.FsInit();
    SameVolume(fs.disk.blocks, v, fs.vol);
    return Reply(0, []);
  }

  /** One call: whatever the blocks, the reply and the next state are the abstract machine's. */
  method Step(fs: FileSystem, c: Call, now: u32, ghost a: Abstract) returns (x: Reply)
    requires fs.Valid() && fs.initialized && Shows(fs.vol, fs.openFiles, a) && Allowed(a, c)
    modifies fs, fs.disk`blocks, fs.disk.data, fs.inodeBitmap, fs.dataBitmap
    ensures fs.Valid() && fs.initialized && Shows(fs.vol, fs.openFiles, Do(a, c).0) && x == Do(a, c).1
    ensures fs.inodeBitmap == old(fs.inodeBitmap) || fresh(fs.inodeBitmap)
    ensures fs.dataBitmap == old(fs.dataBitmap) || fresh(fs.dataBitmap)
    ensures !c.Mount? && !c.Format? ==> fs.InodeDrift() == old(fs.InodeDrift()) && fs.BlockDrift() == old(fs.BlockDrift())
    ensures c.Format? ==> fs.InodeDrift() == 0 && fs.BlockDrift() == 0
  {
    match c
    case Create(path, kind) => x := StepCreate(fs, path, kind, now, a);
    case Unlink(path) => x := StepUnlink(fs, path, now, a);
    case Open(path, flags) => x := StepOpen(fs, path, flags, now, a);
    case Close(fd) => x := StepClose(fs, fd, a);
    case Read(fd, size) => x := StepRead(fs, fd, size, a);
    case Write(fd, buf) => x := StepWrite(fs, fd, buf, now, a);
    case Mount => x := StepMount(fs, a);
    case Format => x := StepFormat(fs, now);
  }

  /** After `k` calls of a run the abstract state is `b` and the replies were `xs`. Folded. */
  ghost predicate Passed(a: Abstract, cs: seq<Call>, k: nat, b: Abstract, xs: seq<Reply>) {
    forall u {:trigger Unfold(OfRunState, u)} :: Unfold(OfRunState, u) ==>
      && k <= |cs| && AllowedRun(b, cs[k..])
      && DoAll(a, cs).0 == DoAll(b, cs[k..]).0 && DoAll(a, cs).1 == xs + DoAll(b, cs[k..]).1
  }

  lemma PassedStart(a: Abstract, cs: seq<Call>)
    requires AllowedRun(a, cs)
    ensures Passed(a, cs, 0, a, [])
  {
    assert cs[0..] == cs;
  }

  lemma PassedNext(a: Abstract, cs: seq<Call>, k: nat, b: Abstract, xs: seq<Reply>)
    requires Passed(a, cs, k, b, xs) && k < |cs|
    ensures Allowed(b, cs[k]) && Passed(a, cs, k + 1, Do(b, cs[k]).0, xs + [Do(b, cs[k]).1])
  {
    assert Unfold(OfRunState, 0);
    assert cs[k..][0] == cs[k] && cs[k..][1..] == cs[k + 1..];
  }

  lemma PassedEnd(a: Abstract, cs: seq<Call>, b: Abstract, xs: seq<Reply>)
    requires Passed(a, cs, |cs|, b, xs)
    ensures b == DoAll(a, cs).0 && xs == DoAll(a, cs).1
  {
    assert Unfold(OfRunState, 0);
    assert cs[|cs|..] == [];
  }

  /** How far a free counter is above its clear bits before and after calls of `cs`: without a mount an
      exact counter stays exact, and without a format too nothing changes. */
  predicate CounterKept(before: int, after: int, cs: seq<Call>) {
    (Mount !in cs && Format !in cs ==> after == before) && (Mount !in cs && before == 0 ==> after == 0)
  }

  /** Every run: the calls made one after another on a mounted file system, each at its own time,
      return exactly what the abstract machine returns, and leave a file system that represents
      exactly the abstract state. */
  method Run(fs: FileSystem, cs: seq<Call>, times: seq<u32>, ghost a: Abstract) returns (xs: seq<Reply>)
    requires fs.Valid() && fs.initialized && Shows(fs.vol, fs.openFiles, a) && AllowedRun(a, cs) && |times| == |cs|
    modifies fs, fs.disk`blocks, fs.disk.data, fs.inodeBitmap, fs.dataBitmap
    ensures fs.Valid() && fs.initialized
    ensures Shows(fs.vol, fs.openFiles, DoAll(a, cs).0) && xs == DoAll(a, cs).1
    ensures CounterKept(old(fs.InodeDrift()), fs.InodeDrift(), cs) && CounterKept(old(fs.BlockDrift()), fs.BlockDrift(), cs)
  {
    xs := [];
    ghost var b := a;
    PassedStart(a, cs);
    for k := 0 to |cs|
      invariant fs.Valid() && fs.initialized && Shows(fs.vol, fs.openFiles, b) && Passed(a, cs, k, b, xs)
      invariant fs.inodeBitmap == old(fs.inodeBitmap) || fresh(fs.inodeBitmap)
      invariant fs.dataBitmap == old(fs.dataBitmap) || fresh(fs.dataBitmap)
      invariant CounterKept(old(fs.InodeDrift()), fs.InodeDrift(), cs) && CounterKept(old(fs.BlockDrift()), fs.BlockDrift(), cs)
    {
      PassedNext(a, cs, k, b, xs);
      var x := Step(fs, cs[k], times[k], b);
      xs := xs + [x];
      b := Do(b, cs[k]).0;
    }
    PassedEnd(a, cs, b, xs);
  }

  /** The same from the start: format, mount, and then any allowed run. */
  method FormatAndRun(fs: FileSystem, cs: seq<Call>, times: seq<u32>, now: u32) returns (xs: seq<Reply>)
    requires fs.disk.Valid() && fs.disk.initialized && fs.Buffers() && |fs.openFiles| == MAX_OPEN && |times| == |cs|
    requires AllowedRun(EMPTY, cs)
    modifies fs, fs.disk`blocks, fs.disk.data, fs.inodeBitmap, fs.dataBitmap
    ensures fs.Valid() && fs.initialized
    ensures Shows(fs.vol, fs.openFiles, DoAll(EMPTY, cs).0) && xs == DoAll(EMPTY, cs).1
    ensures Mount !in cs ==> fs.superblock.freeInodes == Zeros(fs.vol.ibits) && fs.superblock.freeBlocks == Zeros(fs.vol.dbits)
  {
    var _ := StepFormat(fs, now);
    xs := Run(fs, cs, times, EMPTY);
  }
}
