/** The compound changes of create, unlink and write, assembled from the elementary ones. */
module VolumeSteps {
  import opened Words
  import opened Layout
  import opened Volumes
  import opened VolumeBounds

  // ---------------------------------------------------------------- create

  function FreshInode(mode: u32, now: u32): (i: Inode)
    ensures Fresh(i)
  {
    InodeFields.Inode(mode, 0, 0, 0, now, now, Repeat(10, 0), Repeat(4, 0))
  }

  /** The volume once a file's inode is on the disk and before it has a name. */
  lemma FileInode(v: Volume, n: nat, i: Inode)
    requires Consistent(v, {}) && DirRead(v) && 0 < n < TABLE_INODES && !v.ibits[n] && Fresh(i)
    ensures var u := v.(ibits := v.ibits[n := true]);
            Reread(u.(inodes := u.inodes[n := i])) == NewInode(v, n, i)
    ensures Consistent(NewInode(v, n, i), {n}) && DirRead(NewInode(v, n, i)) && Files(NewInode(v, n, i)) == Files(v)
    ensures FileAt(NewInode(v, n, i), n) == []
  {
    DirReadSlots(v);
    DirReadSlots(NewInode(v, n, i));
    NewInodeKeeps(v, {}, n, i);
    assert {} + {n} == {n};
  }

  /** The same for a directory, which also gets a zeroed block. */
  lemma DirInode(v: Volume, n: nat, i: Inode, b: nat)
    requires Consistent(v, {}) && DirRead(v) && 0 < n < TABLE_INODES && !v.ibits[n] && Fresh(i)
    requires b < MAX_DATA && !v.dbits[b]
    ensures var u := Reread(v.(ibits := v.ibits[n := true], dbits := v.dbits[b := true], data := v.data[b := ZERO_BLOCK]));
            Reread(u.(inodes := u.inodes[n := i.(blocks := i.blocks[0 := b])])) == Grow(NewInode(v, n, i), n, 0, b)
    ensures var g := Grow(NewInode(v, n, i), n, 0, b);
            Consistent(g, {n}) && DirRead(g) && Files(g) == Files(v) && FileAt(g, n) == [] && b != 0
  {
    FileInode(v, n, i);
    var w := NewInode(v, n, i);
    var g := Grow(w, n, 0, b);
    ConsistentParts(w, {n});
    assert Live(w, n);
    GrowKeeps(w, {n}, n, 0, b);
    GrowRereads(w, n, 0, b);
    DirReadSlots(g);
    assert g.inodes == v.inodes[n := i.(blocks := i.blocks[0 := b])];
  }

  /** A create that found the directory full undoes its allocations. */
  lemma CreateUndone(g: Volume, n: nat, b: nat)
    requires Consistent(g, {n}) && 0 < n < TABLE_INODES && DirRead(g) && b < MAX_DATA
    requires g.inodes[n].blocks[0] == b && forall k :: 1 <= k < DIRECT ==> g.inodes[n].blocks[k] == 0
    ensures var u := g.(ibits := g.ibits[n := false]);
            (if b == 0 then u else u.(dbits := u.dbits[b := false])) == Release(g, n)
    ensures Consistent(Release(g, n), {}) && DirRead(Release(g, n)) && Files(Release(g, n)) == Files(g)
  {
    var blocks := g.inodes[n].blocks;
    forall c | 0 < c < MAX_DATA ensures c in blocks <==> c == b {
      if c in blocks {
        var k :| 0 <= k < DIRECT && blocks[k] == c;
      } else {
        assert blocks[0] in blocks;
      }
    }
    assert Release(g, n).dbits == if b == 0 then g.dbits else g.dbits[b := false];
    ReleaseKeeps(g, {n}, n);
    assert {n} - {n} == {};
    DirReadSlots(g);
    DirReadSlots(Release(g, n));
  }

  lemma NamesAtMost(v: Volume)
    ensures |Names(v)| <= |UsedSlots(v)|
  {
    var f := map s | s in UsedSlots(v) :: v.dir[s].name;
    forall x | x in Names(v) ensures exists s :: s in UsedSlots(v) && f[s] == x {
      assert f[SlotNamed(v, x)] == x;
    }
    ImageSize(UsedSlots(v), Names(v), f);
  }

  lemma NamesAtLeast(v: Volume)
    requires SlotsGood(v)
    ensures |UsedSlots(v)| <= |Names(v)|
  {
    var h := map x | x in Names(v) :: SlotNamed(v, x);
    forall s | s in UsedSlots(v) ensures exists x :: x in Names(v) && h[x] == s {
      var x := v.dir[s].name;
      assert x in Names(v);
      assert h[x] == s;
    }
    ImageSize(Names(v), UsedSlots(v), h);
  }

  /** The number of files is the number of used slots. */
  lemma FileCount(v: Volume)
    requires SlotsGood(v)
    ensures |Files(v)| == |UsedSlots(v)|
  {
    NamesAtMost(v);
    NamesAtLeast(v);
    assert |Files(v)| == |Files(v).Keys|;
  }

  // ---------------------------------------------------------------- unlink

  lemma FreedNext(v: Volume, n: nat, k: nat)
    requires InodesGood(v) && BlocksOwned(v) && Live(v, n) && k < DIRECT && v.inodes[n].blocks[k] != 0
    ensures var c := v.inodes[n].blocks;
            && c[k] < MAX_DATA && Freed(v.dbits, c[..k])[c[k]]
            && Freed(v.dbits, c[..k + 1]) == Freed(v.dbits, c[..k])[c[k] := false]
  {
    var c := v.inodes[n].blocks;
    assert Owns(v, n, k, c[k]);
    forall j | 0 <= j < k ensures c[j] != c[k] {
      assert Owns(v, n, j, c[j]);
    }
    assert c[..k + 1] == c[..k] + [c[k]];
  }

  lemma FreedAll(v: Volume, n: nat, k: nat)
    requires InodesGood(v) && Live(v, n) && k <= DIRECT && (k == DIRECT || v.inodes[n].blocks[k] == 0)
    ensures v.(ibits := v.ibits[n := false], dbits := Freed(v.dbits, v.inodes[n].blocks[..k])) == Release(v, n)
  {
    var c := v.inodes[n].blocks;
    assert GoodInode(v.inodes[n]);
    forall b | 0 < b < MAX_DATA ensures b in c[..k] <==> b in c {
      if b in c {
        var j :| 0 <= j < DIRECT && c[j] == b;
        assert j < k;
        assert c[..k][j] == b;
      }
    }
    assert Freed(v.dbits, c[..k]) == Release(v, n).dbits;
  }

  /** Freeing first and clearing the entry afterwards is clearing the entry and then freeing. */
  lemma UnlinkDone(v: Volume, s: nat, now: u32)
    requires Consistent(v, {}) && DirRead(v) && s in UsedSlots(v) && v.dir[s].inode < TABLE_INODES
    requires v.inodes[0].blocks[s / 16] < MAX_DATA
    ensures var n := v.dir[s].inode;
            var w := Leave(v, s, now).(ibits := Release(v, n).ibits, dbits := Release(v, n).dbits);
            && w == Release(Leave(v, s, now), n)
            && Consistent(w, {}) && Files(w) == Files(v) - {v.dir[s].name}
  {
    var n := v.dir[s].inode;
    LeaveKeeps(v, {}, s, now);
    assert {} + {n} == {n} && {n} - {n} == {};
    ReleaseKeeps(Leave(v, s, now), {n}, n);
  }

  // ---------------------------------------------------------------- write

  lemma OverwriteTwice(s: seq<byte>, pos: nat, a: seq<byte>, b: seq<byte>)
    requires pos <= |s|
    ensures Overwrite(Overwrite(s, pos, a), pos + |a|, b) == Overwrite(s, pos, a + b)
  {
  }

  /** A block allocated to a file at the end of its contents. */
  lemma GrowFile(v: Volume, s: nat, pos: nat, b: nat)
    requires Consistent(v, {}) && DirRead(v) && s in UsedSlots(v) && v.dir[s].inode < TABLE_INODES
    requires pos < MAX_FILE_SIZE && pos <= v.inodes[v.dir[s].inode].size
    requires v.inodes[v.dir[s].inode].blocks[pos / 512] == 0 && b < MAX_DATA && !v.dbits[b]
    ensures var g := Grow(v, v.dir[s].inode, pos / 512, b);
            Consistent(g, {}) && DirRead(g) && Files(g) == Files(v) && b != 0
  {
    ConsistentParts(v, {});
    var n, k := v.dir[s].inode, pos / 512;
    assert GoodInode(v.inodes[n]);
    assert pos == 512 * k + pos % 512;
    if k > 0 {
      assert 512 * (k - 1) < v.inodes[n].size;
    }
    GrowKeeps(v, {}, n, k, b);
    GrowRereads(v, n, k, b);
  }

  /** One chunk stored: the file represented is overwritten at the position. */
  lemma StoreChunk(v: Volume, s: nat, pos: nat, chunk: seq<byte>)
    requires Consistent(v, {}) && DirRead(v) && s in UsedSlots(v) && 0 < v.dir[s].inode < TABLE_INODES
    requires pos < MAX_FILE_SIZE && pos <= v.inodes[v.dir[s].inode].size && pos % 512 + |chunk| <= 512
    requires v.inodes[v.dir[s].inode].blocks[pos / 512] != 0
    ensures v.inodes[v.dir[s].inode].blocks[pos / 512] < MAX_DATA
    ensures v.dir[s].name in Files(v) && |Files(v)[v.dir[s].name]| == v.inodes[v.dir[s].inode].size
    ensures var w := Store(v, v.dir[s].inode, pos, chunk);
            && Consistent(w, {}) && DirRead(w)
            && Files(w) == Files(v)[v.dir[s].name := Overwrite(Files(v)[v.dir[s].name], pos, chunk)]
  {
    StoreKeeps(v, s, pos, chunk);
    ConsistentParts(v, {});
    StoreRereads(v, v.dir[s].inode, pos, chunk);
  }

  lemma TouchBlocks(v: Volume, n: nat, now: u32)
    requires InodesGood(v) && BlocksOwned(v) && n < TABLE_INODES
    ensures var w := v.(inodes := v.inodes[n := v.inodes[n].(modified := now)]);
            InodesGood(w) && BlocksOwned(w)
  {
    var w := v.(inodes := v.inodes[n := v.inodes[n].(modified := now)]);
    assert forall m: nat :: Live(w, m) <==> Live(v, m);
    assert forall m, j, c: nat :: Owns(w, m, j, c) <==> Owns(v, m, j, c);
    assert forall m: nat :: Live(v, m) && GoodInode(v.inodes[m]) ==> GoodInode(w.inodes[m]);
  }

  /** Timestamps are not part of what a volume represents. */
  lemma TouchKeeps(v: Volume, n: nat, now: u32)
    requires Consistent(v, {}) && DirRead(v) && 0 < n < TABLE_INODES
    ensures var w := v.(inodes := v.inodes[n := v.inodes[n].(modified := now)]);
            Consistent(w, {}) && DirRead(w) && Files(w) == Files(v)
  {
    ConsistentParts(v, {});
    var w := v.(inodes := v.inodes[n := v.inodes[n].(modified := now)]);
    DirReadSlots(v);
    DirReadSlots(w);
    TouchBlocks(v, n, now);
    DirectorySame(v, w, {});
    ConsistentParts(w, {});
    forall m: nat | Live(v, m) ensures FileAt(w, m) == FileAt(v, m) {
      assert GoodInode(v.inodes[m]);
      SameBytes(v, v.inodes[m], w, w.inodes[m]);
    }
    FilesSame(v, w);
  }

  // ---------------------------------------------------------------- read

  /** The number of leading nonzero pointers. */
  function BlockPrefix(i: Inode): (k: nat)
    ensures k <= DIRECT && (forall j :: 0 <= j < k ==> i.blocks[j] != 0) && (k < DIRECT ==> i.blocks[k] == 0)
  {
    PrefixFrom(i, 0)
  }

  function PrefixFrom(i: Inode, k: nat): (r: nat)
    requires k <= DIRECT
    ensures k <= r <= DIRECT && (forall j :: k <= j < r ==> i.blocks[j] != 0) && (r < DIRECT ==> i.blocks[r] == 0)
    decreases DIRECT - k
  {
    if k == DIRECT || i.blocks[k] == 0 then k else PrefixFrom(i, k + 1)
  }

  /** How many bytes a read transfers: the limit to the file size is computed in 32 bits. */
  function ReadCount(i: Inode, pos: u32, size: u32): (r: nat) {
    if pos >= i.size then 0
    else
      var want := if Add32(pos, size) > i.size then i.size - pos else size;
      var have := 512 * BlockPrefix(i) - pos;
      if have < 0 then 0 else if want < have then want else have
  }

  /** A read inside the file stops at its end exactly when the sum did not wrap, or when the
      end of the file is also the end of its last block. */
  lemma ReadCountExact(i: Inode, pos: u32, size: u32)
    requires GoodInode(i) && pos < i.size
    ensures ReadCount(i, pos, size) == Min(size, i.size - pos) <==>
              pos + size < WORD_LIMIT || i.size == 512 * BlockPrefix(i)
  {
  }

  /** When the sum wraps, a read of a ten-byte file can return the rest of its block. */
  lemma ReadPastEnd(i: Inode)
    requires GoodInode(i) && i.size == 10 && BlockPrefix(i) == 1
    ensures ReadCount(i, 4, 0xFFFF_FFFD) == 508
  {
  }

  // ---------------------------------------------------------------- format

  /** A zeroed bit map with bit 0 set has bit 0 and no other. */
  lemma FirstBitOnly(bm: Block, n: nat)
    requires bm == SetBit(ZERO_BLOCK, 0) && n < 4096
    ensures TestBit(bm, n) <==> n == 0
  {
    TestSetBit(ZERO_BLOCK, 0, n);
    ZeroHasNoBits(n % 8);
  }

  /** A freshly formatted volume: the root alone, block 0 reserved, no files. */
  ghost predicate Formatted(v: Volume) {
    && (forall n :: 0 <= n < MAX_INODES ==> v.ibits[n] == (n == 0))
    && (forall b :: 0 <= b < MAX_DATA ==> v.dbits[b] == (b == 0))
    && Fresh(v.inodes[0]) && BitOf(v.inodes[0].mode, 1)
  }

  lemma FormattedSlots(v: Volume, s: nat)
    requires Formatted(v) && DirRead(v) && s < ROOT_SLOTS
    ensures v.dir[s].inode == 0
  {
    DirReadSlots(v);
  }

  lemma FormattedIsEmpty(v: Volume)
    requires Formatted(v) && DirRead(v)
    ensures Consistent(v, {}) && Files(v) == map[]
    ensures Zeros(v.ibits) == 511 && Zeros(v.dbits) == 1980
  {
    forall s | 0 <= s < ROOT_SLOTS ensures v.dir[s].inode == 0 {
      FormattedSlots(v, s);
    }
    assert UsedSlots(v) == {};
    assert Names(v) == {};
    assert forall n: nat :: Live(v, n) <==> n == 0;
    assert GoodInode(v.inodes[0]);
    assert forall n, i, b: nat :: Owns(v, n, i, b) ==> b == 0;
    ConsistentParts(v, {});
    OneBit(v.ibits);
    OneBit(v.dbits);
  }

  lemma OneBit(bits: seq<bool>)
    requires |bits| > 0 && forall n :: 0 <= n < |bits| ==> bits[n] == (n == 0)
    ensures Zeros(bits) == |bits| - 1
  {
    var all := ZeroBits(bits) + {0};
    AtLeast(all, |bits|);
    AtMost(all, |bits|);
  }

  /** Bit 0 is set, so at most all the others are clear. */
  lemma ZerosBelow(bits: seq<bool>)
    requires |bits| > 0 && bits[0]
    ensures Zeros(bits) <= |bits| - 1
  {
    AtMost(ZeroBits(bits) + {0}, |bits|);
  }
}
