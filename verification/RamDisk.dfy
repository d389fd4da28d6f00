/** The RAM disk: 1 MB of bytes read and written in blocks of 512. */
module RamDisks {
  import opened Words
  import opened Layout

  const DISK_BYTES: nat := 0x10_0000

  function Offset(k: nat): (o: nat) {
    512 * k
  }

  class RamDisk {
    var data: array<byte>
    var initialized: bool
    /** What the disk holds, block by block. */
    ghost var blocks: Disk

    ghost predicate Valid()
      reads this, data
    {
      initialized ==>
        && data.Length == DISK_BYTES
        && forall k {:trigger Offset(k)} :: 0 <= k < DISK_BLOCKS ==> blocks[k] == data[Offset(k)..Offset(k) + 512]
    }

    /** Before `ramdisk_init`. */
    constructor ()
      ensures Valid() && !initialized && fresh(data)
    {
      data := new byte[0];
      initialized := false;
      blocks := Repeat(DISK_BLOCKS, ZERO_BLOCK);
    }

    /** `ramdisk_init`; `granted` says whether the heap had the memory. */
    method Init(granted: bool)
      modifies this
      ensures Valid() && initialized == granted
      ensures granted ==> fresh(data) && forall k :: 0 <= k < DISK_BLOCKS ==> blocks[k] == ZERO_BLOCK
    {
      if !granted {
        initialized := false;
        return;
      }
      data := new byte[DISK_BYTES](_ => 0);
      initialized := true;
      blocks := Repeat(DISK_BLOCKS, ZERO_BLOCK);
      assert forall k :: 0 <= k < DISK_BLOCKS ==> ZERO_BLOCK == data[Offset(k)..Offset(k) + 512];
    }

    method ReadBlock(n: u32) returns (status: int, buffer: Block)
      requires Valid()
      ensures status == if initialized && n < DISK_BLOCKS then 0 else -1
      ensures status == 0 ==> buffer == blocks[n]
    {
      if !initialized {
        return -1, ZERO_BLOCK;
      }
      if n >= DISK_BLOCKS {
        return -1, ZERO_BLOCK;
      }
      return 0, data[Offset(n)..Offset(n) + 512];
    }

    method WriteBlock(n: u32, buffer: Block) returns (status: int)
      requires Valid()
      modifies `blocks, data
      ensures Valid()
      ensures status == if initialized && n < DISK_BLOCKS then 0 else -1
      ensures blocks == if status == 0 then old(blocks)[n := buffer] else old(blocks)
    {
      if !initialized {
        return -1;
      }
      if n >= DISK_BLOCKS {
        return -1;
      }
      forall i | 0 <= i < 512 {
        data[Offset(n) + i] := buffer[i];
      }
      blocks := blocks[n := buffer];
      forall k | 0 <= k < DISK_BLOCKS ensures blocks[k] == data[Offset(k)..Offset(k) + 512] {
        if k != n {
          assert data[Offset(k)..Offset(k) + 512] == old(data[Offset(k)..Offset(k) + 512]);
        }
      }
      return 0;
    }
  }
}
