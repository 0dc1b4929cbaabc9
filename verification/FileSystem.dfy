/** filesystem/filesystem.c in place. */
module FileSystem {
  import opened CString
  import opened Disk

  /** `s` with `data` copied to position `o`. */
  function Patch(s: seq<char>, o: nat, data: seq<char>): (r: seq<char>)
    requires o + |data| <= |s|
    ensures |r| == |s|
  {
    s[..o] + data + s[o + |data|..]
  }

  /** What one chunk of a copy does to the bytes of a file: it writes from `x` on, inside one block. */
  lemma PatchBytes(blocks: seq<int>, storage: Storage, x: nat, data: seq<char>)
    requires IsStorage(storage) && x / BLOCK_SIZE < |blocks| && 0 <= blocks[x / BLOCK_SIZE] < BLOCK_COUNT
    requires x % BLOCK_SIZE + |data| <= BLOCK_SIZE
    requires forall i, j :: 0 <= i < |blocks| && 0 <= j < |blocks| && blocks[i] != NONE && blocks[i] == blocks[j] ==> i == j
    ensures var b := blocks[x / BLOCK_SIZE];
      var t := storage[b := Patch(storage[b], x % BLOCK_SIZE, data)];
      && (forall k :: 0 <= k < x ==> ByteAt(blocks, t, k) == ByteAt(blocks, storage, k))
      && (forall k :: x <= k < x + |data| ==> ByteAt(blocks, t, k) == data[k - x])
  {
    var b := blocks[x / BLOCK_SIZE];
    var t := storage[b := Patch(storage[b], x % BLOCK_SIZE, data)];
    forall k | 0 <= k < x ensures ByteAt(blocks, t, k) == ByteAt(blocks, storage, k) {
      if k / BLOCK_SIZE == x / BLOCK_SIZE {
        assert k % BLOCK_SIZE < x % BLOCK_SIZE;
      }
    }
    forall k | x <= k < x + |data| ensures ByteAt(blocks, t, k) == data[k - x] {
      assert k / BLOCK_SIZE == x / BLOCK_SIZE && k % BLOCK_SIZE == x % BLOCK_SIZE + (k - x);
    }
  }

  /** A set of block slots that a file can have. */
  ghost predicate SlotsOk(blocks: seq<int>) {
    && |blocks| == MAX_BLOCKS_PER_FILE
    && (forall j :: 0 <= j < |blocks| ==> blocks[j] == NONE || 0 <= blocks[j] < BLOCK_COUNT)
    && (forall i, j :: 0 <= i < |blocks| && 0 <= j < |blocks| && blocks[i] != NONE && blocks[i] == blocks[j] ==> i == j)
  }

  lemma InodeSlots(d: Disk, k: nat)
    requires Inv(d) && k < MAX_FILES
    ensures SlotsOk(d.inodes[k].blocks)
  {
    var blocks := d.inodes[k].blocks;
    assert SlotOk(d.inodes[k], d.dir[k], k);
    forall i, j | 0 <= i < |blocks| && 0 <= j < |blocks| && blocks[i] != NONE && blocks[i] == blocks[j] ensures i == j {
      assert Owns(d.inodes, k, i, blocks[i]) && Owns(d.inodes, k, j, blocks[i]);
    }
  }

  /** One more chunk, inside one block. */
  lemma WroteChunk(blocks: seq<int>, s: Storage, t: Storage, z: nat, data: seq<char>, chunk: seq<char>)
    requires SlotsOk(blocks) && Wrote(blocks, s, t, z, data)
    requires var x := z + |data|;
      x / BLOCK_SIZE < |blocks| && blocks[x / BLOCK_SIZE] != NONE && x % BLOCK_SIZE + |chunk| <= BLOCK_SIZE
    ensures var x := z + |data|;
      var b := blocks[x / BLOCK_SIZE];
      Wrote(blocks, s, t[b := Patch(t[b], x % BLOCK_SIZE, chunk)], z, data + chunk)
  {
    PatchBytes(blocks, t, z + |data|, chunk);
  }

  /** A chunk of a file inside one block. */
  lemma ChunkOfData(n: Inode, storage: Storage, x: nat, chunk: nat)
    requires IsStorage(storage) && SlotsOk(n.blocks) && x + chunk <= n.size
    requires x / BLOCK_SIZE < |n.blocks| && n.blocks[x / BLOCK_SIZE] != NONE && x % BLOCK_SIZE + chunk <= BLOCK_SIZE
    ensures var o := x % BLOCK_SIZE;
      Data(n, storage)[x..x + chunk] == storage[n.blocks[x / BLOCK_SIZE]][o..o + chunk]
  {
    var o := x % BLOCK_SIZE;
    var read := Data(n, storage)[x..x + chunk];
    var stored := storage[n.blocks[x / BLOCK_SIZE]][o..o + chunk];
    forall i | 0 <= i < chunk ensures read[i] == stored[i] {
      assert (x + i) / BLOCK_SIZE == x / BLOCK_SIZE && (x + i) % BLOCK_SIZE == o + i;
    }
  }

  /** A buffer that holds the first `x` bytes of `data` gets one chunk more. */
  lemma Spliced(buffer: seq<char>, data: seq<char>, rest: seq<char>, x: nat, chunk: nat)
    requires x + chunk <= |data| && x + chunk <= |rest| && buffer == data[..x] + rest[x..]
    ensures buffer[..x] + data[x..x + chunk] + buffer[x + chunk..] == data[..x + chunk] + rest[x + chunk..]
  {
  }

  /** C blocks are enough for the size, and A are no fewer. */
  lemma SizeFits(n: Inode)
    requires InodeOk(n) && Live(n)
    ensures n.size <= Used(n.blocks) * BLOCK_SIZE
  {
  }

  /** What the two writing operations keep: `size` bytes fit into `a` blocks. */
  predicate Fits(size: int, a: int) {
    0 <= size <= a * BLOCK_SIZE && Claimed(size) <= a
  }

  /** By how much a write of `size` bytes makes the spare blocks of `n` grow: by the number of blocks
      that the old size needs more. */
  function Freed(n: Inode, size: nat): int {
    Max(0, Claimed(n.size) - Claimed(Min(size, MAX_SIZE)))
  }

  /** write_file stores `length` bytes in `n`, which has `a` blocks by then. */
  predicate WriteFits(n: Inode, size: nat, a: nat, length: int) {
    && length == Min(Min(size, MAX_SIZE), Room(n)) && Fits(length, a)
    && a - Claimed(length) == Slack(n) + Freed(n, size)
  }

  /** The length that write_file stores, from its own computation. */
  lemma WriteLength(n: Inode, size: nat, needed: int, got: nat, length: int)
    requires InodeOk(n) && Live(n) && needed == Blocks(Min(size, MAX_SIZE)) - Claimed(n.size)
    requires got == if needed > 0 then Min(needed, MAX_BLOCKS_PER_FILE - Used(n.blocks)) else 0
    requires length == if got < needed then (Claimed(n.size) + got) * BLOCK_SIZE else Min(size, MAX_SIZE)
    ensures WriteFits(n, size, Used(n.blocks) + got, length)
  {
  }

  /** What write_file stores of `size` bytes (see WriteFile).  It stores all that a file can hold,
      whatever the size, iff the file has no spare blocks. */
  lemma CompleteWrites(n: Inode)
    requires InodeOk(n) && Live(n)
    ensures (forall size: nat :: Min(Min(size, MAX_SIZE), Room(n)) == Min(size, MAX_SIZE)) <==> Slack(n) == 0
  {
    assert Min(MAX_SIZE, MAX_SIZE) == MAX_SIZE && Room(n) == MAX_SIZE - Slack(n) * BLOCK_SIZE;
    if Slack(n) != 0 {
      assert Min(Min(MAX_SIZE, MAX_SIZE), Room(n)) != Min(MAX_SIZE, MAX_SIZE);
    }
  }

  /** append_to_file adds `length` bytes to `n`, which has `a` blocks by then. */
  predicate AppendFits(n: Inode, size: nat, a: nat, length: int) {
    && length == Min(Min(size, MAX_SIZE - n.size), Room(n) - n.size)
    && 0 <= length && Fits(n.size + length, a) && a - Claimed(n.size + length) == Slack(n)
  }

  /** The length that append_to_file stores, from its own computation. */
  lemma AppendLength(n: Inode, size: nat, left: nat, overflow: nat, needed: int, got: nat, length: int)
    requires InodeOk(n) && Live(n) && n.size < MAX_SIZE && left == Left(n.size)
    requires overflow == Max(Min(size, MAX_SIZE - n.size) - left, 0) && needed == Blocks(overflow)
    requires got == if needed > 0 then Min(needed, MAX_BLOCKS_PER_FILE - Used(n.blocks)) else 0
    requires length == if got < needed then left + got * BLOCK_SIZE else Min(size, MAX_SIZE - n.size)
    ensures AppendFits(n, size, Used(n.blocks) + got, length)
  {
    if got < needed {
      AppendCut(n, size, overflow, needed, got, length);
    } else if overflow > 0 {
      AppendMore(n, size, overflow, got, length);
    } else {
      AppendInside(n, size, length);
    }
  }

  /** There are not enough blocks: the append ends with the last one. */
  lemma AppendCut(n: Inode, size: nat, overflow: nat, needed: int, got: nat, length: int)
    requires InodeOk(n) && Live(n) && n.size < MAX_SIZE
    requires overflow == Max(Min(size, MAX_SIZE - n.size) - Left(n.size), 0) && needed == Blocks(overflow)
    requires got == MAX_BLOCKS_PER_FILE - Used(n.blocks) && got < needed && length == Left(n.size) + got * BLOCK_SIZE
    ensures AppendFits(n, size, Used(n.blocks) + got, length)
  {
    assert overflow > got * BLOCK_SIZE;
    assert n.size + length == (Claimed(n.size) + got) * BLOCK_SIZE;
    FilledBlocks(Claimed(n.size) + got);
  }

  /** The append goes on in new blocks. */
  lemma AppendMore(n: Inode, size: nat, overflow: nat, got: nat, length: int)
    requires InodeOk(n) && Live(n) && n.size < MAX_SIZE
    requires length == Min(size, MAX_SIZE - n.size) && 0 < overflow == length - Left(n.size)
    requires got == Blocks(overflow) <= MAX_BLOCKS_PER_FILE - Used(n.blocks)
    ensures AppendFits(n, size, Used(n.blocks) + got, length)
  {
    assert n.size + length == Claimed(n.size) * BLOCK_SIZE + overflow && overflow <= got * BLOCK_SIZE;
    MoreBlocks(Claimed(n.size), overflow);
  }

  /** The append stays in the last block. */
  lemma AppendInside(n: Inode, size: nat, length: int)
    requires InodeOk(n) && Live(n) && n.size < MAX_SIZE
    requires length == Min(size, MAX_SIZE - n.size) <= Left(n.size)
    ensures AppendFits(n, size, Used(n.blocks), length)
  {
  }

  lemma FilledBlocks(k: nat)
    requires k > 0
    ensures Claimed(k * BLOCK_SIZE) == k
  {
  }

  lemma MoreBlocks(c: nat, more: nat)
    requires c > 0
    ensures Claimed(c * BLOCK_SIZE + more) == c + Blocks(more)
  {
  }

  /** space_left_in_last: the bytes behind size `z` in the last block that it accounts for. */
  function Left(z: nat): (r: nat)
    ensures r == Claimed(z) * BLOCK_SIZE - z
  {
    if z % BLOCK_SIZE == 0 && z > 0 then 0 else BLOCK_SIZE - z % BLOCK_SIZE
  }

  class FileSystem {
    const inodeTable: array<Inode>
    const rootDirectory: array<DirEntry>
    const storage: array<seq<char>>
    const blockBitmap: array<int>
    var freeInodes: int
    var freeBlocks: int

    /** What the global arrays hold. */
    ghost function D(): Disk
      reads this, inodeTable, rootDirectory, storage, blockBitmap
    {
      Disk(inodeTable[..], rootDirectory[..], storage[..], blockBitmap[..], freeInodes, freeBlocks)
    }

    ghost predicate Valid()
      reads this, inodeTable, rootDirectory, storage, blockBitmap
    {
      Inv(D())
    }

    /** The global arrays, with any contents. */
    ghost predicate Shaped()
      reads this, inodeTable, rootDirectory, storage, blockBitmap
    {
      && inodeTable.Length == MAX_FILES && rootDirectory.Length == MAX_FILES
      && IsStorage(storage[..]) && blockBitmap.Length == BLOCK_COUNT
    }

    /** The memory that the program starts with. */
    constructor (inode: Inode, entry: DirEntry)
      ensures Shaped()
      ensures fresh(inodeTable) && fresh(rootDirectory) && fresh(storage) && fresh(blockBitmap)
    {
      inodeTable := new Inode[MAX_FILES](_ => inode);
      rootDirectory := new DirEntry[MAX_FILES](_ => entry);
      storage := new seq<char>[BLOCK_COUNT](_ => Zeros(BLOCK_SIZE));
      blockBitmap := new int[BLOCK_COUNT](_ => 0);
      freeInodes, freeBlocks := 0, 0;
    }

    /** format_disk: whatever was there before, no files are left. */
    method FormatDisk()
      requires Shaped()
      modifies this, inodeTable, rootDirectory, blockBitmap
      ensures Valid() && storage[..] == old(storage[..])
      ensures forall i :: 0 <= i < 256 ==> Files(D())[i] == None
      ensures freeInodes == 256 && freeBlocks == 1024
    {
      freeInodes := MAX_FILES;
      freeBlocks := BLOCK_COUNT;
      ClearInodes();
      ClearDirectory();
      ClearBitmap();
      EmptyInv(D());
    }

    method ClearInodes()
      requires inodeTable.Length == MAX_FILES
      modifies inodeTable
      ensures forall i :: 0 <= i < MAX_FILES ==> IsCleared(inodeTable[i])
    {
      for i := 0 to MAX_FILES
        invariant forall j :: 0 <= j < i ==> IsCleared(inodeTable[j])
      {
        inodeTable[i] := inodeTable[i].(number := 0);
        inodeTable[i] := inodeTable[i].(size := 0);
        inodeTable[i] := inodeTable[i].(blocks := NoBlocks());
      }
    }

    method ClearDirectory()
      requires rootDirectory.Length == MAX_FILES
      modifies rootDirectory
      ensures forall i :: 0 <= i < MAX_FILES ==> rootDirectory[i].number == 0
    {
      for i := 0 to MAX_FILES
        invariant forall j :: 0 <= j < i ==> rootDirectory[j].number == 0
      {
        rootDirectory[i] := rootDirectory[i].(number := 0);
      }
    }

    method ClearBitmap()
      requires blockBitmap.Length == BLOCK_COUNT
      modifies blockBitmap
      ensures forall i :: 0 <= i < BLOCK_COUNT ==> blockBitmap[i] == 0
    {
      for i := 0 to BLOCK_COUNT
        invariant forall j :: 0 <= j < i ==> blockBitmap[j] == 0
      {
        blockBitmap[i] := 0;
      }
    }

    /** allocate_block: the first free block, or -1. */
    method AllocateBlock() returns (r: int)
      modifies `freeBlocks, blockBitmap
      ensures r == -1 ==> D() == old(D()) && forall i :: 0 <= i < blockBitmap.Length ==> blockBitmap[i] != 0
      ensures r != -1 ==>
        && 0 <= r < blockBitmap.Length && old(blockBitmap[r]) == 0
        && (forall i :: 0 <= i < r ==> old(blockBitmap[i]) != 0)
        && D() == old(D()).(bitmap := old(blockBitmap[..])[r := 1], freeBlocks := old(freeBlocks) - 1)
    {
      for i := 0 to blockBitmap.Length
        invariant forall k :: 0 <= k < i ==> blockBitmap[k] != 0
        invariant D() == old(D())
      {
        if blockBitmap[i] == 0 {
          blockBitmap[i] := 1;
          freeBlocks := freeBlocks - 1;
          return i;
        }
      }
      return -1;
    }

    /** allocate_inode: the first unused inode, or -1. */
    method AllocateInode() returns (r: int)
      modifies `freeInodes, inodeTable
      ensures r == -1 ==> D() == old(D()) && forall i :: 0 <= i < inodeTable.Length ==> inodeTable[i].number != 0
      ensures r != -1 ==>
        && 0 <= r < inodeTable.Length && old(inodeTable[r]).number == 0
        && (forall i :: 0 <= i < r ==> old(inodeTable[i]).number != 0)
        && D() == old(D()).(inodes := old(inodeTable[..])[r := old(inodeTable[r]).(number := r + 1)], freeInodes := old(freeInodes) - 1)
    {
      for i := 0 to inodeTable.Length
        invariant forall k :: 0 <= k < i ==> inodeTable[k].number != 0
        invariant D() == old(D())
      {
        if inodeTable[i].number == 0 {
          inodeTable[i] := inodeTable[i].(number := i + 1);
          freeInodes := freeInodes - 1;
          return i;
        }
      }
      return -1;
    }

    /** One unused slot of inode `k` is filled.  A free block is always found, so the `break` of
        allocate_blocks is never reached. */
    method FillSlot(k: nat, i: nat)
      requires Valid() && k < MAX_FILES && Live(D().inodes[k]) && SlotOk(D().inodes[k], D().dir[k], k)
      requires i < MAX_BLOCKS_PER_FILE && i <= Used(D().inodes[k].blocks) && D().inodes[k].blocks[i] == NONE
      modifies `freeBlocks, blockBitmap, inodeTable
      ensures Valid() && OnlyGrown(old(D()), D(), k, 1)
    {
      ghost var d := D();
      GrowStep(d, k, i);
      var newBlock := AllocateBlock();
      if newBlock == -1 {
        assert false;
      }
      inodeTable[k] := SetBlock(inodeTable[k], i, newBlock);
      assert D() == Grown(d, k, newBlock);
    }

    /** One round of the loop of allocate_blocks. */
    method FillIfUnused(k: nat, i: nat, got0: nat, ghost d: Disk) returns (got: nat)
      requires Valid() && k < MAX_FILES && k < |d.inodes| && OnlyGrown(d, D(), k, got0) && Live(d.inodes[k])
      requires i < MAX_BLOCKS_PER_FILE && i <= Used(D().inodes[k].blocks)
      modifies `freeBlocks, blockBitmap, inodeTable
      ensures Valid() && OnlyGrown(d, D(), k, got)
      ensures got == got0 + if i == Used(old(D()).inodes[k].blocks) then 1 else 0
    {
      ghost var e := D();
      assert SlotOk(e.inodes[k], e.dir[k], k);
      got := got0;
      if inodeTable[k].blocks[i] == NONE {
        FillSlot(k, i);
        GrownTwice(d, e, D(), k, got);
        got := got + 1;
      }
    }

    /** allocate_blocks: the unused slots of inode `k` are filled, up to `required` of them. */
    method AllocateBlocks(k: nat, required: nat) returns (got: nat)
      requires Valid() && k < MAX_FILES && Live(D().inodes[k])
      modifies `freeBlocks, blockBitmap, inodeTable
      ensures Valid()
      ensures got == Min(required, MAX_BLOCKS_PER_FILE - Used(old(D()).inodes[k].blocks))
      ensures OnlyGrown(old(D()), D(), k, got)
    {
      got := 0;
      ghost var d, a := D(), Used(D().inodes[k].blocks);
      assert SlotOk(D().inodes[k], D().dir[k], k);
      var i := 0;
      while i < MAX_BLOCKS_PER_FILE && got < required
        invariant Valid() && OnlyGrown(d, D(), k, got) && i <= MAX_BLOCKS_PER_FILE
        invariant got <= required && if got == 0 then i <= a else i == a + got
      {
        got := FillIfUnused(k, i, got, d);
        i := i + 1;
      }
      assert SlotOk(D().inodes[k], D().dir[k], k);
    }

    /** The loop over the root directory that starts every operation on a named file: the first
        slot in use whose name matches, or MAX_FILES. */
    method FindSlot(filename: seq<char>) returns (i: nat)
      requires Valid() && IsString(filename)
      ensures i == Lookup(Files(D()), Text(filename))
      ensures i <= MAX_FILES
      ensures i < MAX_FILES ==> Live(D().inodes[i]) && SlotOk(D().inodes[i], D().dir[i], i)
    {
      ghost var files, name := Files(D()), Text(filename);
      i := 0;
      while i < MAX_FILES
        invariant i <= MAX_FILES
        invariant forall j :: 0 <= j < i ==> !Is(files[j], name)
      {
        assert SlotOk(D().inodes[i], D().dir[i], i) && files[i] == FileAt(D(), i);
        if rootDirectory[i].number != 0 {
          FoundByText(rootDirectory[i].filename, filename);
          var r := Strncmp(rootDirectory[i].filename, filename, MAX_FILENAME_LEN);
          if r == 0 {
            LookupIs(files, name, i);
            return;
          }
        }
        i := i + 1;
      }
      LookupIs(files, name, i);
    }

    /** chmod_file */
    method ChmodFile(filename: seq<char>, newPermissions: bv16) returns (r: int)
      requires Valid() && IsString(filename)
      modifies inodeTable
      ensures Valid()
      ensures var (f, i) := (Files(old(D())), Lookup(Files(old(D())), Text(filename)));
        if i == MAX_FILES then r == -1 && D() == old(D())
        else r == 0 && Files(D()) == f[i := Some(f[i].value.(permissions := newPermissions))]
      ensures Spares(D().inodes) == Spares(old(D()).inodes)
    {
      ghost var d := D();
      var i := FindSlot(filename);
      if i == MAX_FILES {
        return -1;
      }
      var k := rootDirectory[i].number - 1;
      inodeTable[k] := inodeTable[k].(permissions := newPermissions);
      ChmodInv(d, k, newPermissions);
      SparesUpdate(d.inodes, k, d.inodes[k].(permissions := newPermissions));
      assert D() == d.(inodes := d.inodes[k := d.inodes[k].(permissions := newPermissions)]);
      OthersKept(d, D(), k);
      return 0;
    }

    /** create_file, as stores. */
    method CreateCode(filename: seq<char>) returns (r: int, ghost block: nat)
      requires Valid() && IsString(filename) && |Text(filename)| < MAX_FILENAME_LEN
      modifies this, inodeTable, rootDirectory, blockBitmap
      ensures r == -1 ==> D() == old(D()) && forall i :: 0 <= i < MAX_FILES ==> Live(D().inodes[i])
      ensures r != -1 ==> var d := old(D());
        && 0 <= r < MAX_FILES && !Live(d.inodes[r]) && (forall i :: 0 <= i < r ==> Live(d.inodes[i]))
        && SlotOk(d.inodes[r], d.dir[r], r) && block < BLOCK_COUNT && d.bitmap[block] == 0
        && D() == Created(d, r, block, Padded(Text(filename), MAX_FILENAME_LEN))
    {
      ghost var d := D();
      block := 0;
      r := AllocateInode();
      if r == -1 {
        return;
      }
      UnusedSlot(d, r);
      var newBlock := AllocateBlock();
      if newBlock == -1 {
        assert false;
      }
      block := newBlock;
      FillInode(r, newBlock);
      var i := FreeEntry();
      if i == MAX_FILES {
        assert false;
      }
      FillEntry(i, filename, r);
    }

    /** Directory entry `i` gets the name and the number of inode `k`. */
    method FillEntry(i: nat, filename: seq<char>, k: nat)
      requires i < rootDirectory.Length && IsString(filename) && |Text(filename)| < MAX_FILENAME_LEN
      modifies rootDirectory
      ensures D() == old(D()).(dir := old(D()).dir[i := DirEntry(Padded(Text(filename), MAX_FILENAME_LEN), k + 1)])
    {
      var name := new char[MAX_FILENAME_LEN];
      Strncpy(name, filename, MAX_FILENAME_LEN);
      assert name[..] == name[..MAX_FILENAME_LEN];
      rootDirectory[i] := rootDirectory[i].(filename := name[..]);
      rootDirectory[i] := rootDirectory[i].(number := k + 1);
    }

    /** create_file: the first unused inode and the directory slot of the same number.  It fails iff
        all inodes are in use; neither blocks nor directory slots run out before. */
    method CreateFile(filename: seq<char>) returns (r: int)
      requires Valid() && IsString(filename) && |Text(filename)| < MAX_FILENAME_LEN
      modifies this, inodeTable, rootDirectory, blockBitmap
      ensures Valid()
      ensures r == -1 <==> forall i :: 0 <= i < 256 ==> Files(old(D()))[i].Some?
      ensures r == -1 ==> D() == old(D())
      ensures r != -1 ==> var f := Files(old(D()));
        && 0 <= r < 256 && f[r] == None && (forall i :: 0 <= i < r ==> f[i].Some?)
        && Files(D()) == f[r := Some(File(Text(filename), ALL_ALLOWED, []))]
        && Spares(D().inodes) == Spares(old(D()).inodes)[r := 0]
        && Files(D())[r].value.permissions as int == 7
        && (Lookup(Files(D()), Text(filename)) == r <==> NameIsFree(f, Text(filename)))
    {
      ghost var d, block := D(), 0;
      SlotsInUse(d);
      r, block := CreateCode(filename);
      if r != -1 {
        CreatedFiles(d, r, block, filename);
      }
    }

    /** Inode `k` gets its first block, no bytes and all permissions. */
    method FillInode(k: nat, block: nat)
      requires k < inodeTable.Length && |inodeTable[k].blocks| > 0
      modifies inodeTable
      ensures D() == old(D()).(inodes := old(D()).inodes[k :=
        Inode(old(inodeTable[k]).number, 0, old(inodeTable[k]).blocks[0 := block], ALL_ALLOWED)])
    {
      inodeTable[k] := inodeTable[k].(size := 0);
      inodeTable[k] := SetBlock(inodeTable[k], 0, block);
      inodeTable[k] := inodeTable[k].(permissions := ALL_ALLOWED);
    }

    /** The loop of create_file over the root directory: the first unused slot, or MAX_FILES. */
    method FreeEntry() returns (i: nat)
      requires rootDirectory.Length == MAX_FILES
      ensures i <= MAX_FILES && (i < MAX_FILES ==> rootDirectory[i].number == 0)
      ensures forall j :: 0 <= j < i ==> rootDirectory[j].number != 0
    {
      i := 0;
      while i < MAX_FILES && rootDirectory[i].number != 0
        invariant i <= MAX_FILES
        invariant forall j :: 0 <= j < i ==> rootDirectory[j].number != 0
      {
        i := i + 1;
      }
    }

    /** One round of the loop of delete_file over the block slots. */
    method ReleaseSlot(k: nat, j: nat)
      requires k < inodeTable.Length && j < |inodeTable[k].blocks|
      requires OwnInv(D().inodes, D().bitmap) && freeBlocks == CountFree(D().bitmap)
      modifies `freeBlocks, blockBitmap, inodeTable
      ensures OwnInv(D().inodes, D().bitmap) && freeBlocks == CountFree(D().bitmap)
      ensures D() == old(D()).(inodes := old(D()).inodes[k := SetBlock(old(D()).inodes[k], j, NONE)],
                               bitmap := D().bitmap, freeBlocks := freeBlocks)
    {
      ghost var d := D();
      var block := inodeTable[k].blocks[j];
      if block != NONE {
        OwnRemove(d.inodes, d.bitmap, k, j);
        CountFreeUpdate(d.bitmap, block, 0);
        blockBitmap[block] := 0;
        freeBlocks := freeBlocks + 1;
        inodeTable[k] := SetBlock(inodeTable[k], j, NONE);
        assert D().bitmap == d.bitmap[block := 0];
        assert D().inodes == d.inodes[k := SetBlock(d.inodes[k], j, NONE)];
      } else {
        assert d.inodes[k].blocks[j := NONE] == d.inodes[k].blocks;
        assert d.inodes[k := SetBlock(d.inodes[k], j, NONE)] == d.inodes;
      }
    }

    /** The loop of delete_file over the block slots. */
    method ReleaseBlocks(k: nat)
      requires k < inodeTable.Length && |inodeTable[k].blocks| == MAX_BLOCKS_PER_FILE
      requires OwnInv(D().inodes, D().bitmap) && freeBlocks == CountFree(D().bitmap)
      modifies `freeBlocks, blockBitmap, inodeTable
      ensures OwnInv(D().inodes, D().bitmap) && freeBlocks == CountFree(D().bitmap)
      ensures D() == old(D()).(inodes := old(D()).inodes[k := old(D()).inodes[k].(blocks := NoBlocks())],
                               bitmap := D().bitmap, freeBlocks := freeBlocks)
    {
      ghost var d := D();
      ghost var bs := d.inodes[k].blocks;
      assert NoBlocks()[..0] + bs[0..] == bs;
      assert d.inodes[k := d.inodes[k].(blocks := bs)] == d.inodes;
      for j := 0 to MAX_BLOCKS_PER_FILE
        invariant OwnInv(D().inodes, D().bitmap) && freeBlocks == CountFree(D().bitmap)
        invariant D() == d.(inodes := d.inodes[k := d.inodes[k].(blocks := NoBlocks()[..j] + bs[j..])],
                            bitmap := D().bitmap, freeBlocks := freeBlocks)
      {
        assert (NoBlocks()[..j] + bs[j..])[j := NONE] == NoBlocks()[..j + 1] + bs[j + 1..];
        ReleaseSlot(k, j);
      }
      assert NoBlocks()[..MAX_BLOCKS_PER_FILE] + bs[MAX_BLOCKS_PER_FILE..] == NoBlocks();
    }

    /** What delete_file does to a file that it may delete. */
    method DeleteSlot(i: nat)
      requires i < inodeTable.Length && i < rootDirectory.Length && rootDirectory[i].number == i + 1
      requires |inodeTable[i].blocks| == MAX_BLOCKS_PER_FILE
      requires OwnInv(D().inodes, D().bitmap) && freeBlocks == CountFree(D().bitmap)
      modifies this, inodeTable, rootDirectory, blockBitmap
      ensures D() == Deleted(old(D()), i, D().bitmap, Zeros(MAX_FILENAME_LEN))
      ensures OwnInv(old(D()).inodes[i := old(D()).inodes[i].(blocks := NoBlocks())], D().bitmap)
    {
      var k := rootDirectory[i].number - 1;
      ReleaseBlocks(k);
      ghost var e := D();
      ClearInode(k);
      freeInodes := freeInodes + 1;
      ClearEntry(i);
      assert D().bitmap == e.bitmap;
    }

    /** Directory entry `i` becomes unused and its name is wiped out. */
    method ClearEntry(i: nat)
      requires i < rootDirectory.Length
      modifies rootDirectory
      ensures D() == old(D()).(dir := old(D()).dir[i := DirEntry(Zeros(MAX_FILENAME_LEN), 0)])
    {
      rootDirectory[i] := rootDirectory[i].(number := 0);
      rootDirectory[i] := rootDirectory[i].(filename := Zeros(MAX_FILENAME_LEN));
    }

    /** Inode `k` becomes unused and empty. */
    method ClearInode(k: nat)
      requires k < inodeTable.Length
      modifies inodeTable
      ensures D() == old(D()).(inodes := old(D()).inodes[k := old(D()).inodes[k].(number := 0, size := 0)])
    {
      inodeTable[k] := inodeTable[k].(number := 0);
      inodeTable[k] := inodeTable[k].(size := 0);
    }

    /** delete_file */
    method DeleteFile(filename: seq<char>) returns (r: int)
      requires Valid() && IsString(filename)
      modifies this, inodeTable, rootDirectory, blockBitmap
      ensures Valid()
      ensures var (f, i) := (Files(old(D())), Lookup(Files(old(D())), Text(filename)));
        if i < MAX_FILES && CheckPermissions(f[i].value.permissions, 1) then r == 0 && Files(D()) == f[i := None]
        else r == -1 && D() == old(D())
      ensures var (f, i) := (Files(old(D())), Lookup(Files(old(D())), Text(filename)));
        r == -1 <==> i == 256 || f[i].value.permissions as int / 2 % 2 == 0
      ensures r != -1 ==>
        Spares(D().inodes) == Spares(old(D()).inodes)[Lookup(Files(old(D())), Text(filename)) := -1]
    {
      ghost var d := D();
      var i := FindSlot(filename);
      if i < MAX_FILES {
        PermissionBits(Files(d)[i].value.permissions, 1);
      }
      if i == MAX_FILES || !CheckPermissions(inodeTable[rootDirectory[i].number - 1].permissions, 1) {
        return -1;
      }
      DeleteSlot(i);
      DeletedInv(d, i, d.inodes[i := d.inodes[i].(blocks := NoBlocks())], D().bitmap, Zeros(MAX_FILENAME_LEN));
      DeletedSpares(d, i, D().bitmap, Zeros(MAX_FILENAME_LEN));
      OthersKept(d, D(), i);
      return 0;
    }

    /** The copying loop of write_file. */
    method CopyIn(k: nat, buffer: seq<char>, writeSize: nat) returns (written: nat)
      requires k < inodeTable.Length && SlotsOk(inodeTable[k].blocks) && IsStorage(storage[..])
      requires writeSize <= |buffer| && writeSize <= Used(inodeTable[k].blocks) * BLOCK_SIZE
      modifies storage
      ensures written == writeSize
      ensures Wrote(inodeTable[k].blocks, old(storage[..]), storage[..], 0, buffer[..writeSize])
    {
      ghost var s := storage[..];
      ghost var blocks := inodeTable[k].blocks;
      written := 0;
      var j := 0;
      while j < MAX_BLOCKS_PER_FILE && written < writeSize
        invariant j <= MAX_BLOCKS_PER_FILE && written == Min(j * BLOCK_SIZE, writeSize)
        invariant Wrote(blocks, s, storage[..], 0, buffer[..written])
      {
        var block := inodeTable[k].blocks[j];
        if block == NONE {
          assert false;
        }
        var chunk := Min(BLOCK_SIZE, writeSize - written);
        var data := buffer[written..written + chunk];
        WroteChunk(blocks, s, storage[..], 0, buffer[..written], data);
        ghost var t := storage[..];
        storage[block] := Patch(storage[block], 0, data);
        assert storage[..] == t[block := Patch(t[block], 0, data)];
        assert buffer[..written] + data == buffer[..written + chunk];
        written := written + chunk;
        j := j + 1;
      }
    }

    /** The copying loop of append_to_file. */
    method CopyBehind(k: nat, size: nat, buffer: seq<char>, appendSize: nat) returns (written: nat)
      requires k < inodeTable.Length && SlotsOk(inodeTable[k].blocks) && IsStorage(storage[..])
      requires appendSize <= |buffer| && size + appendSize <= Used(inodeTable[k].blocks) * BLOCK_SIZE
      modifies storage
      ensures written == appendSize
      ensures Wrote(inodeTable[k].blocks, old(storage[..]), storage[..], size, buffer[..appendSize])
    {
      ghost var s := storage[..];
      ghost var blocks := inodeTable[k].blocks;
      written := 0;
      while written < appendSize
        invariant written <= appendSize
        invariant Wrote(blocks, s, storage[..], size, buffer[..written])
        decreases appendSize - written
      {
        var offset := (size + written) % BLOCK_SIZE;
        var number := (size + written) / BLOCK_SIZE;
        var block := inodeTable[k].blocks[number];
        if block == NONE {
          assert false;
        }
        var chunk := Min(BLOCK_SIZE - offset, appendSize - written);
        var data := buffer[written..written + chunk];
        WroteChunk(blocks, s, storage[..], size, buffer[..written], data);
        ghost var t := storage[..];
        storage[block] := Patch(storage[block], offset, data);
        assert storage[..] == t[block := Patch(t[block], offset, data)];
        assert buffer[..written] + data == buffer[..written + chunk];
        written := written + chunk;
      }
    }

    /** Copies `data` into the buffer, from position `at` on. */
    method CopyOut(buffer: array<char>, at: nat, data: seq<char>)
      requires at + |data| <= buffer.Length
      modifies buffer
      ensures buffer[..] == old(buffer[..at]) + data + old(buffer[at + |data|..])
    {
      forall i | 0 <= i < |data| {
        buffer[at + i] := data[i];
      }
    }

    /** One round of the copying loop of read_file. */
    method CopyChunk(k: nat, buffer: array<char>, read: nat, readSize: nat, ghost data: seq<char>, ghost rest: seq<char>)
      returns (chunk: nat)
      requires k < inodeTable.Length && SlotsOk(inodeTable[k].blocks) && IsStorage(storage[..])
      requires read < readSize && |rest| == buffer.Length
      requires readSize <= buffer.Length && readSize <= inodeTable[k].size <= Used(inodeTable[k].blocks) * BLOCK_SIZE
      requires data == Data(inodeTable[k], storage[..]) && buffer[..] == data[..read] + rest[read..]
      modifies buffer
      ensures 0 < chunk <= readSize - read
      ensures buffer[..] == data[..read + chunk] + rest[read + chunk..]
    {
      var number := read / BLOCK_SIZE;
      var offset := read % BLOCK_SIZE;
      var block := inodeTable[k].blocks[number];
      if block == NONE {
        assert false;
      }
      chunk := Min(BLOCK_SIZE - offset, readSize - read);
      ChunkOfData(inodeTable[k], storage[..], read, chunk);
      Spliced(buffer[..], data, rest, read, chunk);
      CopyOut(buffer, read, storage[block][offset..offset + chunk]);
    }

    /** The copying loop of read_file; its `break` is never reached. */
    method CopyFrom(k: nat, buffer: array<char>, readSize: nat) returns (read: nat)
      requires k < inodeTable.Length && SlotsOk(inodeTable[k].blocks) && IsStorage(storage[..])
      requires readSize <= buffer.Length && readSize <= inodeTable[k].size <= Used(inodeTable[k].blocks) * BLOCK_SIZE
      modifies buffer
      ensures read == readSize
      ensures buffer[..] == Data(inodeTable[k], storage[..])[..readSize] + old(buffer[readSize..])
    {
      ghost var data, rest := Data(inodeTable[k], storage[..]), buffer[..];
      read := 0;
      while read < readSize
        invariant read <= readSize
        invariant buffer[..] == data[..read] + rest[read..]
        decreases readSize - read
      {
        var chunk := CopyChunk(k, buffer, read, readSize, data, rest);
        read := read + chunk;
      }
    }

    /** The rest of read_file, once the file is found and may be read. */
    method ReadSlot(k: nat, buffer: array<char>, size: nat) returns (r: nat)
      requires Valid() && k < MAX_FILES && Live(D().inodes[k]) && size <= buffer.Length
      modifies buffer
      ensures r == Min(size, inodeTable[k].size)
      ensures buffer[..] == Data(inodeTable[k], storage[..])[..r] + old(buffer[r..])
    {
      InodeSlots(D(), k);
      assert SlotOk(D().inodes[k], D().dir[k], k);
      SizeFits(D().inodes[k]);
      var fileSize := inodeTable[k].size;
      var readSize := if size > fileSize then fileSize else size;
      r := CopyFrom(k, buffer, readSize);
    }

    /** read_file: the first min(size, file size) bytes; nothing else changes. */
    method ReadFile(filename: seq<char>, buffer: array<char>, size: nat) returns (r: int)
      requires Valid() && IsString(filename) && size <= buffer.Length
      modifies buffer
      ensures D() == old(D())
      ensures var (f, i) := (Files(D()), Lookup(Files(D()), Text(filename)));
        if i < MAX_FILES && CheckPermissions(f[i].value.permissions, 0)
        then r == Min(size, |f[i].value.data|) && buffer[..] == f[i].value.data[..r] + old(buffer[r..])
        else r == -1 && buffer[..] == old(buffer[..])
      ensures var (f, i) := (Files(D()), Lookup(Files(D()), Text(filename)));
        r == -1 <==> i == 256 || f[i].value.permissions as int / 4 % 2 == 0
    {
      var i := FindSlot(filename);
      if i < MAX_FILES {
        PermissionBits(Files(D())[i].value.permissions, 0);
      }
      if i == MAX_FILES || !CheckPermissions(inodeTable[rootDirectory[i].number - 1].permissions, 0) {
        return -1;
      }
      r := ReadSlot(rootDirectory[i].number - 1, buffer, size);
    }

    /** A write ends with the new size of inode `k`. */
    method Finish(k: nat, size: nat, ghost e: Disk, ghost z: nat, ghost data: seq<char>)
      requires Inv(e) && k < MAX_FILES && SlotOk(e.inodes[k], e.dir[k], k) && Live(e.inodes[k])
      requires D() == e.(storage := D().storage) && Wrote(e.inodes[k].blocks, e.storage, D().storage, z, data)
      requires size == z + |data| && z <= e.inodes[k].size && Fits(size, Used(e.inodes[k].blocks))
      modifies inodeTable
      ensures Valid()
      ensures D().inodes == e.inodes[k := e.inodes[k].(size := size)]
      ensures Files(D()) == Rewritten(Files(e), k, z, data)
    {
      WrittenFiles(e, k, z, data, D().storage);
      ResizeInv(e, k, size, D().storage);
      inodeTable[k] := inodeTable[k].(size := size);
      assert D() == e.(inodes := e.inodes[k := e.inodes[k].(size := size)], storage := D().storage);
    }

    /** Inode `k` has `got` more blocks than in `d`, and the files are those of `d`. */
    ghost predicate Reserved(d: Disk, k: nat, got: nat)
      reads this, inodeTable, rootDirectory, storage, blockBitmap
    {
      && Valid() && k < MAX_FILES && k < |d.inodes| && SlotOk(D().inodes[k], D().dir[k], k) && Live(D().inodes[k])
      && |d.inodes| == |d.dir| && Files(D()) == Files(d)
      && D().inodes == d.inodes[k := d.inodes[k].(blocks := D().inodes[k].blocks)]
      && SlotsOk(D().inodes[k].blocks) && Used(D().inodes[k].blocks) == Used(d.inodes[k].blocks) + got
    }

    /** Asks for more blocks for inode `k`, if any are needed. */
    method Reserve(k: nat, neededBlocks: int) returns (got: nat)
      requires Valid() && k < MAX_FILES && SlotOk(D().inodes[k], D().dir[k], k) && Live(D().inodes[k])
      modifies this, inodeTable, blockBitmap
      ensures Reserved(old(D()), k, got)
      ensures got == if neededBlocks > 0 then Min(neededBlocks, MAX_BLOCKS_PER_FILE - Used(old(D()).inodes[k].blocks)) else 0
    {
      ghost var d := D();
      got := 0;
      if neededBlocks > 0 {
        got := AllocateBlocks(k, neededBlocks);
        GrownSameFiles(d, D(), k, got);
      }
      InodeSlots(D(), k);
    }

    /** The blocks and the length of a write. */
    method ReserveForWrite(k: nat, size: nat, ghost n: Inode) returns (writeSize: nat, ghost got: nat)
      requires Valid() && k < MAX_FILES && SlotOk(D().inodes[k], D().dir[k], k) && Live(n) && n == inodeTable[k]
      modifies this, inodeTable, blockBitmap
      ensures Reserved(old(D()), k, got)
      ensures WriteFits(n, size, Used(n.blocks) + got, writeSize)
    {
      writeSize := Min(size, MAX_SIZE);
      var currentBlocks := Max((inodeTable[k].size + BLOCK_SIZE - 1) / BLOCK_SIZE, 1);
      var neededBlocks := (writeSize + BLOCK_SIZE - 1) / BLOCK_SIZE - currentBlocks;
      var gained := Reserve(k, neededBlocks);
      got := gained;
      if gained < neededBlocks {
        writeSize := (currentBlocks + gained) * BLOCK_SIZE;
      }
      WriteLength(n, size, neededBlocks, got, writeSize);
    }

    /** What write_file does to a file that it may write. */
    method WriteSlot(k: nat, buffer: seq<char>, size: nat) returns (written: nat)
      requires Valid() && k < MAX_FILES && SlotOk(D().inodes[k], D().dir[k], k) && Live(D().inodes[k]) && size <= |buffer|
      modifies this, inodeTable, storage, blockBitmap
      ensures Valid()
      ensures var (n, m) := (old(D()).inodes[k], D().inodes[k]);
        && written == Min(Min(size, MAX_SIZE), Room(n))
        && Slack(m) == Slack(n) + Freed(n, size)
        && D().inodes == old(D()).inodes[k := m]
      ensures Files(D()) == Rewritten(Files(old(D())), k, 0, buffer[..written])
    {
      var writeSize, _ := ReserveForWrite(k, size, inodeTable[k]);
      ghost var e := D();
      written := CopyIn(k, buffer, writeSize);
      Finish(k, written, e, 0, buffer[..written]);
    }

    /** The number of allocated slots of an inode, which append_to_file counts and does not use. */
    method CountSlots(k: nat) returns (currentBlocks: nat)
      requires k < inodeTable.Length && InodeOk(inodeTable[k])
      ensures currentBlocks == Used(inodeTable[k].blocks)
    {
      currentBlocks := 0;
      for b := 0 to MAX_BLOCKS_PER_FILE
        invariant currentBlocks == Min(b, Used(inodeTable[k].blocks))
      {
        if inodeTable[k].blocks[b] != NONE {
          currentBlocks := currentBlocks + 1;
        }
      }
    }

    /** The blocks and the length of an append. */
    method ReserveForAppend(k: nat, size: nat, ghost n: Inode) returns (appendSize: nat, ghost got: nat)
      requires Valid() && k < MAX_FILES && SlotOk(D().inodes[k], D().dir[k], k) && Live(n) && n == inodeTable[k]
      requires n.size < MAX_SIZE
      modifies this, inodeTable, blockBitmap
      ensures Reserved(old(D()), k, got)
      ensures AppendFits(n, size, Used(n.blocks) + got, appendSize)
    {
      var currentSize := inodeTable[k].size;
      appendSize := Min(size, MAX_SIZE - currentSize);
      var spaceLeftInLast := Left(currentSize);
      var overflow := if appendSize > spaceLeftInLast then appendSize - spaceLeftInLast else 0;
      var neededBlocks := (overflow + BLOCK_SIZE - 1) / BLOCK_SIZE;
      var gained := Reserve(k, neededBlocks);
      got := gained;
      if gained < neededBlocks {
        appendSize := spaceLeftInLast + gained * BLOCK_SIZE;
      }
      AppendLength(n, size, spaceLeftInLast, overflow, neededBlocks, got, appendSize);
    }

    /** What append_to_file does to a file that it may extend; "Block not allocated" is never reached. */
    method AppendSlot(k: nat, buffer: seq<char>, size: nat) returns (written: nat)
      requires Valid() && k < MAX_FILES && SlotOk(D().inodes[k], D().dir[k], k) && Live(D().inodes[k]) && size <= |buffer|
      requires inodeTable[k].size < MAX_SIZE
      modifies this, inodeTable, storage, blockBitmap
      ensures Valid()
      ensures var (n, m) := (old(D()).inodes[k], D().inodes[k]);
        && AppendFits(n, size, Used(m.blocks), written)
        && m.size == n.size + written && D().inodes == old(D()).inodes[k := m]
      ensures Files(D()) == Rewritten(Files(old(D())), k, old(D()).inodes[k].size, buffer[..written])
    {
      var currentSize := inodeTable[k].size;
      var _ := CountSlots(k);
      var appendSize, _ := ReserveForAppend(k, size, inodeTable[k]);
      ghost var e := D();
      written := CopyBehind(k, currentSize, buffer, appendSize);
      Finish(k, currentSize + written, e, currentSize, buffer[..written]);
    }

    /** write_file: the file becomes the first `r` bytes of the buffer. */
    method WriteFile(filename: seq<char>, buffer: seq<char>, size: nat) returns (r: int)
      requires Valid() && IsString(filename) && size <= |buffer|
      modifies this, inodeTable, storage, blockBitmap
      ensures Valid()
      ensures var (f, i) := (Files(old(D())), Lookup(Files(old(D())), Text(filename)));
        if i < MAX_FILES && CheckPermissions(f[i].value.permissions, 1) then
          && r == Min(Min(size, MAX_SIZE), Room(old(D()).inodes[i]))
          && 0 <= r && Files(D()) == f[i := Some(f[i].value.(data := buffer[..r]))]
        else r == -1 && D() == old(D())
      ensures var (f, i) := (Files(old(D())), Lookup(Files(old(D())), Text(filename)));
        r == -1 <==> i == 256 || f[i].value.permissions as int / 2 % 2 == 0
      ensures r != -1 ==> var i := Lookup(Files(old(D())), Text(filename));
        var (n, m) := (old(D()).inodes[i], D().inodes[i]);
        && D().inodes == old(D()).inodes[i := m] && Slack(m) == Slack(n) + Freed(n, size)
    {
      var i := FindSlot(filename);
      if i < MAX_FILES {
        PermissionBits(Files(D())[i].value.permissions, 1);
      }
      if i == MAX_FILES || !CheckPermissions(inodeTable[rootDirectory[i].number - 1].permissions, 1) {
        return -1;
      }
      r := WriteSlot(rootDirectory[i].number - 1, buffer, size);
    }

    /** append_to_file: the first `r` bytes of the buffer go behind the file's bytes. */
    method AppendFile(filename: seq<char>, buffer: seq<char>, size: nat) returns (r: int)
      requires Valid() && IsString(filename) && size <= |buffer|
      modifies this, inodeTable, storage, blockBitmap
      ensures Valid()
      ensures var (f, i) := (Files(old(D())), Lookup(Files(old(D())), Text(filename)));
        if i < MAX_FILES && CheckPermissions(f[i].value.permissions, 1) && |f[i].value.data| < MAX_SIZE then
          var z := |f[i].value.data|;
          && r == Min(Min(size, MAX_SIZE - z), Room(old(D()).inodes[i]) - z)
          && 0 <= r && Files(D()) == f[i := Some(f[i].value.(data := f[i].value.data + buffer[..r]))]
        else r == -1 && D() == old(D())
      ensures var (f, i) := (Files(old(D())), Lookup(Files(old(D())), Text(filename)));
        r == -1 <==> i == 256 || f[i].value.permissions as int / 2 % 2 == 0 || |f[i].value.data| >= 16384
      ensures r != -1 ==> var i := Lookup(Files(old(D())), Text(filename));
        var (n, m) := (old(D()).inodes[i], D().inodes[i]);
        D().inodes == old(D()).inodes[i := m] && Slack(m) == Slack(n)
    {
      var i := FindSlot(filename);
      if i < MAX_FILES {
        PermissionBits(Files(D())[i].value.permissions, 1);
      }
      if i == MAX_FILES || !CheckPermissions(inodeTable[rootDirectory[i].number - 1].permissions, 1) {
        return -1;
      }
      if inodeTable[rootDirectory[i].number - 1].size >= MAX_SIZE {
        return -1;
      }
      r := AppendSlot(rootDirectory[i].number - 1, buffer, size);
    }
  }
}
