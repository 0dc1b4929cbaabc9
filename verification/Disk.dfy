/** The block file system of filesystem/filesystem.c as values: what its global arrays hold, what
    every operation keeps about them, and the files that they represent. */
module Disk {
  import opened CString

  const MAX_FILES: nat := 256
  const BLOCK_COUNT: nat := 1024
  const BLOCK_SIZE: nat := 4096
  const MAX_BLOCKS_PER_FILE: nat := 4
  const MAX_FILENAME_LEN: nat := 255
  const MAX_SIZE: nat := MAX_BLOCKS_PER_FILE * BLOCK_SIZE

  /** An unused block slot, (uint32_t)-1 in the source. */
  const NONE: int := -1

  /** The permission bits for modes 0 (read), 1 (write) and 2 (execute). */
  const MAY_READ: bv16 := 4
  const MAY_WRITE: bv16 := 2
  const MAY_EXECUTE: bv16 := 1
  const ALL_ALLOWED: bv16 := 7

  datatype Inode = Inode(number: nat, size: nat, blocks: seq<int>, permissions: bv16)

  datatype DirEntry = DirEntry(filename: seq<char>, number: nat)

  type Storage = seq<seq<char>>

  /** The values of the global arrays and of the two counters that change. */
  datatype Disk = Disk(
    inodes: seq<Inode>, dir: seq<DirEntry>, storage: Storage, bitmap: seq<int>,
    freeInodes: int, freeBlocks: int)

  // ---------- Blocks of one inode ----------

  predicate Live(n: Inode) {
    n.number != 0
  }

  /** A: how many block slots are allocated. */
  function Used(blocks: seq<int>): (a: nat)
    ensures a <= |blocks|
    ensures forall j :: 0 <= j < a ==> blocks[j] != NONE
    ensures a < |blocks| ==> blocks[a] == NONE
  {
    if blocks == [] || blocks[0] == NONE then 0 else 1 + Used(blocks[1..])
  }

  /** Allocated slots are a prefix. */
  predicate IsPrefix(blocks: seq<int>) {
    forall j :: Used(blocks) <= j < |blocks| ==> blocks[j] == NONE
  }

  /** Blocks needed for `size` bytes. */
  function Blocks(size: nat): nat {
    (size + BLOCK_SIZE - 1) / BLOCK_SIZE
  }

  /** C: the blocks that the size accounts for; an empty file accounts for one. */
  function Claimed(size: nat): nat {
    if Blocks(size) > 1 then Blocks(size) else 1
  }

  /** At least one block, and no more than the bytes need. */
  lemma ClaimedIsLeast(size: nat)
    ensures 1 <= Claimed(size) && size <= Claimed(size) * 4096
    ensures Claimed(size) > 1 ==> (Claimed(size) - 1) * 4096 < size
  {
  }

  lemma {:induction false} UsedIs(blocks: seq<int>, a: nat)
    requires a <= |blocks| && (forall j :: 0 <= j < a ==> blocks[j] != NONE) && (a < |blocks| ==> blocks[a] == NONE)
    ensures Used(blocks) == a
  {
  }

  predicate InodeOk(n: Inode) {
    && |n.blocks| == MAX_BLOCKS_PER_FILE && IsPrefix(n.blocks)
    && (forall j :: 0 <= j < |n.blocks| ==> n.blocks[j] == NONE || 0 <= n.blocks[j] < BLOCK_COUNT)
    && (if Live(n) then Claimed(n.size) <= Used(n.blocks) else Used(n.blocks) == 0 && n.size == 0)
  }

  // ---------- Ownership ----------

  /** Slot `j` of inode `i` holds block `b`. */
  predicate Owns(inodes: seq<Inode>, i: int, j: int, b: int) {
    0 <= i < |inodes| && 0 <= j < |inodes[i].blocks| && inodes[i].blocks[j] == b && b != NONE
  }

  ghost predicate IsUsed(inodes: seq<Inode>, b: int) {
    exists i, j :: Owns(inodes, i, j, b)
  }

  /** A bit is set iff exactly one slot holds the block. */
  ghost predicate OwnInv(inodes: seq<Inode>, bitmap: seq<int>) {
    && |bitmap| == BLOCK_COUNT
    && (forall b :: 0 <= b < BLOCK_COUNT ==> bitmap[b] == if IsUsed(inodes, b) then 1 else 0)
    && (forall i, j, b :: Owns(inodes, i, j, b) ==> 0 <= b < BLOCK_COUNT)
    && (forall i, j, i', j', b :: Owns(inodes, i, j, b) && Owns(inodes, i', j', b) ==> i == i' && j == j')
  }

  // ---------- Counters ----------

  function CountFree(bitmap: seq<int>): nat {
    if bitmap == [] then 0 else (if bitmap[0] == 0 then 1 else 0) + CountFree(bitmap[1..])
  }

  function CountDead(inodes: seq<Inode>): nat {
    if inodes == [] then 0 else (if Live(inodes[0]) then 0 else 1) + CountDead(inodes[1..])
  }

  lemma {:induction false} CountFreeUpdate(bitmap: seq<int>, b: nat, x: int)
    requires b < |bitmap|
    ensures CountFree(bitmap[b := x]) ==
      CountFree(bitmap) - (if bitmap[b] == 0 then 1 else 0) + (if x == 0 then 1 else 0)
  {
    if b == 0 {
      assert bitmap[b := x][1..] == bitmap[1..];
    } else {
      assert bitmap[b := x][1..] == bitmap[1..][b - 1 := x];
      CountFreeUpdate(bitmap[1..], b - 1, x);
    }
  }

  lemma {:induction false} CountDeadUpdate(inodes: seq<Inode>, i: nat, n: Inode)
    requires i < |inodes|
    ensures CountDead(inodes[i := n]) ==
      CountDead(inodes) - (if Live(inodes[i]) then 0 else 1) + (if Live(n) then 0 else 1)
  {
    if i == 0 {
      assert inodes[i := n][1..] == inodes[1..];
    } else {
      assert inodes[i := n][1..] == inodes[1..][i - 1 := n];
      CountDeadUpdate(inodes[1..], i - 1, n);
    }
  }

  // ---------- The invariant ----------

  predicate NameOk(e: DirEntry) {
    |e.filename| == MAX_FILENAME_LEN && |Text(e.filename)| < MAX_FILENAME_LEN
  }

  /** Directory slot `i` is in step with inode `i`: both are unused, or both have number i + 1. */
  predicate SlotOk(n: Inode, e: DirEntry, i: nat) {
    InodeOk(n) && e.number == n.number && (Live(n) ==> n.number == i + 1 && NameOk(e))
  }

  predicate IsStorage(storage: Storage) {
    |storage| == BLOCK_COUNT && forall b :: 0 <= b < BLOCK_COUNT ==> |storage[b]| == BLOCK_SIZE
  }

  ghost predicate Inv(d: Disk) {
    && |d.inodes| == MAX_FILES && |d.dir| == MAX_FILES && IsStorage(d.storage)
    && (forall i :: 0 <= i < MAX_FILES ==> SlotOk(d.inodes[i], d.dir[i], i))
    && OwnInv(d.inodes, d.bitmap)
    && d.freeInodes == CountDead(d.inodes) && d.freeBlocks == CountFree(d.bitmap)
  }

  // ---------- Space never runs out ----------

  /** The blocks that the inodes hold. */
  ghost function Held(inodes: seq<Inode>): set<int>
    decreases |inodes|
  {
    if inodes == [] then {} else Held(inodes[1..]) + HeldBy(inodes[0].blocks)
  }

  ghost function HeldBy(blocks: seq<int>): set<int> {
    set j | 0 <= j < Used(blocks) :: blocks[j]
  }

  function TotalUsed(inodes: seq<Inode>): nat {
    if inodes == [] then 0 else TotalUsed(inodes[1..]) + Used(inodes[0].blocks)
  }

  lemma {:induction false} HeldBySize(blocks: seq<int>)
    ensures |HeldBy(blocks)| <= Used(blocks)
  {
    if blocks != [] && blocks[0] != NONE {
      HeldBySize(blocks[1..]);
      forall x | x in HeldBy(blocks) ensures x in HeldBy(blocks[1..]) + {blocks[0]} {
        var j :| 0 <= j < Used(blocks) && blocks[j] == x;
        if j > 0 {
          assert blocks[1..][j - 1] == x;
        }
      }
      SubsetSize(HeldBy(blocks), HeldBy(blocks[1..]) + {blocks[0]});
    } else {
      assert HeldBy(blocks) == {};
    }
  }

  lemma {:induction false} SubsetSize<T>(a: set<T>, b: set<T>)
    requires a <= b
    ensures |a| <= |b|
  {
    if a != {} {
      var x :| x in a;
      SubsetSize(a - {x}, b - {x});
    }
  }

  lemma {:induction false} HeldSize(inodes: seq<Inode>)
    ensures |Held(inodes)| <= TotalUsed(inodes)
  {
    if inodes != [] {
      HeldSize(inodes[1..]);
      HeldBySize(inodes[0].blocks);
    }
  }

  lemma {:induction false} HeldContains(inodes: seq<Inode>, i: nat, j: nat)
    requires i < |inodes| && j < Used(inodes[i].blocks)
    ensures inodes[i].blocks[j] in Held(inodes)
  {
    if i > 0 {
      HeldContains(inodes[1..], i - 1, j);
    }
  }

  /** An inode with an unused slot leaves a gap in the count. */
  lemma {:induction false} TotalUsedBound(inodes: seq<Inode>, k: int)
    requires forall i :: 0 <= i < |inodes| ==> |inodes[i].blocks| == MAX_BLOCKS_PER_FILE
    ensures TotalUsed(inodes) <= MAX_BLOCKS_PER_FILE * |inodes|
    ensures 0 <= k < |inodes| && Used(inodes[k].blocks) < MAX_BLOCKS_PER_FILE ==>
      TotalUsed(inodes) < MAX_BLOCKS_PER_FILE * |inodes|
  {
    if inodes != [] {
      TotalUsedBound(inodes[1..], k - 1);
    }
  }

  ghost function Range(n: nat): set<int> {
    if n == 0 then {} else Range(n - 1) + {n - 1}
  }

  lemma {:induction false} RangeSize(n: nat)
    ensures |Range(n)| == n
    ensures forall x :: x in Range(n) <==> 0 <= x < n
  {
    if n > 0 {
      RangeSize(n - 1);
    }
  }

  /** While some inode has an unused slot, some block is free. */
  lemma SpaceLeft(inodes: seq<Inode>, bitmap: seq<int>, k: nat)
    requires |inodes| == MAX_FILES && k < MAX_FILES && OwnInv(inodes, bitmap)
    requires forall i :: 0 <= i < |inodes| ==> |inodes[i].blocks| == MAX_BLOCKS_PER_FILE && IsPrefix(inodes[i].blocks)
    requires Used(inodes[k].blocks) < MAX_BLOCKS_PER_FILE
    ensures exists b :: 0 <= b < BLOCK_COUNT && bitmap[b] == 0
  {
    TotalUsedBound(inodes, k);
    HeldSize(inodes);
    RangeSize(BLOCK_COUNT);
    if forall b :: 0 <= b < BLOCK_COUNT ==> bitmap[b] != 0 {
      forall b | b in Range(BLOCK_COUNT) ensures b in Held(inodes) {
        assert bitmap[b] != 0;
        var i, j :| Owns(inodes, i, j, b);
        HeldContains(inodes, i, j);
      }
      SubsetSize(Range(BLOCK_COUNT), Held(inodes));
    }
  }

  // ---------- Ownership under the elementary changes ----------

  function SetBlock(n: Inode, j: nat, b: int): Inode
    requires j < |n.blocks|
  {
    n.(blocks := n.blocks[j := b])
  }

  /** The same blocks, whatever else the inodes say. */
  lemma OwnSame(inodes: seq<Inode>, inodes': seq<Inode>, bitmap: seq<int>)
    requires OwnInv(inodes, bitmap) && |inodes'| == |inodes|
    requires forall i :: 0 <= i < |inodes| ==> inodes'[i].blocks == inodes[i].blocks
    ensures OwnInv(inodes', bitmap)
  {
    assert forall i, j, b :: Owns(inodes', i, j, b) <==> Owns(inodes, i, j, b);
    forall b | 0 <= b < BLOCK_COUNT ensures IsUsed(inodes', b) <==> IsUsed(inodes, b) {
      if IsUsed(inodes, b) {
        var i, j :| Owns(inodes, i, j, b);
        assert Owns(inodes', i, j, b);
      }
    }
  }

  /** A free block goes into an unused slot. */
  lemma OwnAdd(inodes: seq<Inode>, bitmap: seq<int>, k: nat, j: nat, b: int)
    requires OwnInv(inodes, bitmap) && k < |inodes| && j < |inodes[k].blocks|
    requires inodes[k].blocks[j] == NONE && 0 <= b < BLOCK_COUNT && bitmap[b] == 0
    ensures OwnInv(inodes[k := SetBlock(inodes[k], j, b)], bitmap[b := 1])
  {
    var t := inodes[k := SetBlock(inodes[k], j, b)];
    assert forall i, l, c :: Owns(t, i, l, c) <==> Owns(inodes, i, l, c) || (i == k && l == j && c == b);
    assert !IsUsed(inodes, b);
    forall c | 0 <= c < BLOCK_COUNT ensures IsUsed(t, c) <==> IsUsed(inodes, c) || c == b {
      if IsUsed(inodes, c) {
        var i, l :| Owns(inodes, i, l, c);
        assert Owns(t, i, l, c);
      }
      assert c == b ==> Owns(t, k, j, b);
    }
  }

  /** A slot is emptied and its block is free again. */
  lemma OwnRemove(inodes: seq<Inode>, bitmap: seq<int>, k: nat, j: nat)
    requires OwnInv(inodes, bitmap) && k < |inodes| && j < |inodes[k].blocks| && inodes[k].blocks[j] != NONE
    ensures var b := inodes[k].blocks[j];
      0 <= b < BLOCK_COUNT && bitmap[b] == 1 && OwnInv(inodes[k := SetBlock(inodes[k], j, NONE)], bitmap[b := 0])
  {
    var b := inodes[k].blocks[j];
    var t := inodes[k := SetBlock(inodes[k], j, NONE)];
    assert Owns(inodes, k, j, b);
    assert forall i, l, c :: Owns(t, i, l, c) <==> Owns(inodes, i, l, c) && !(i == k && l == j);
    forall c | 0 <= c < BLOCK_COUNT ensures IsUsed(t, c) <==> IsUsed(inodes, c) && c != b {
      if IsUsed(inodes, c) && c != b {
        var i, l :| Owns(inodes, i, l, c);
        assert Owns(t, i, l, c);
      }
    }
  }

  // ---------- Files ----------

  datatype Option<T> = None | Some(value: T)

  function Min(a: int, b: int): int {
    if a < b then a else b
  }

  function Max(a: int, b: int): int {
    if a > b then a else b
  }

  /** check_permissions */
  predicate CheckPermissions(permissions: bv16, mode: int) {
    if mode == 0 then permissions & MAY_READ != 0
    else if mode == 1 then permissions & MAY_WRITE != 0
    else if mode == 2 then permissions & MAY_EXECUTE != 0
    else false
  }

  /** Which of the permissions' bits allow reading, writing and executing, for the number `k`. */
  predicate BitsOf(p: bv16, k: int) {
    && (CheckPermissions(p, 0) <==> k / 4 % 2 == 1)
    && (CheckPermissions(p, 1) <==> k / 2 % 2 == 1)
    && (CheckPermissions(p, 2) <==> k % 2 == 1)
  }

  lemma MinusEight(p: bv16)
    requires p >= 8
    ensures (p - 8) as int == p as int - 8
  {
  }

  lemma SameBits(p: bv16)
    ensures p & 4 == (p - 8) & 4 && p & 2 == (p - 8) & 2 && p & 1 == (p - 8) & 1
  {
  }

  lemma BitsMinusEight(p: bv16, k: int)
    requires BitsOf(p - 8, k - 8)
    ensures BitsOf(p, k)
  {
    SameBits(p);
    assert k / 4 == (k - 8) / 4 + 2 && k / 2 == (k - 8) / 2 + 4;
  }

  lemma SmallBits(p: bv16)
    requires p < 8
    ensures BitsOf(p, p as int)
  {
    if p == 0 {
    } else if p == 1 {
    } else if p == 2 {
    } else if p == 3 {
    } else if p == 4 {
    } else if p == 5 {
    } else if p == 6 {
    } else {
      assert p == 7;
    }
  }

  lemma {:induction false} BitsOfNumber(p: bv16)
    ensures BitsOf(p, p as int)
    decreases p as int
  {
    if p < 8 {
      SmallBits(p);
    } else {
      MinusEight(p);
      BitsOfNumber(p - 8);
      BitsMinusEight(p, p as int);
    }
  }

  /** Modes 0, 1 and 2 are allowed iff the bit for 4, 2 and 1 is set; no other mode ever is. */
  lemma PermissionBits(p: bv16, mode: int)
    ensures CheckPermissions(p, mode) <==>
      (mode == 0 && p as int / 4 % 2 == 1) || (mode == 1 && p as int / 2 % 2 == 1) || (mode == 2 && p as int % 2 == 1)
  {
    BitsOfNumber(p);
  }

  datatype File = File(name: seq<char>, permissions: bv16, data: seq<char>)

  /** Byte `k` of what the blocks hold. */
  function ByteAt(blocks: seq<int>, storage: Storage, k: nat): char {
    var (j, o) := (k / BLOCK_SIZE, k % BLOCK_SIZE);
    if j < |blocks| && 0 <= blocks[j] < |storage| && o < |storage[blocks[j]]| then storage[blocks[j]][o] else NUL
  }

  function Data(n: Inode, storage: Storage): (r: seq<char>)
    ensures |r| == n.size
    ensures forall k :: 0 <= k < n.size ==> r[k] == ByteAt(n.blocks, storage, k)
  {
    seq(n.size, k requires 0 <= k => ByteAt(n.blocks, storage, k))
  }

  /** The file in directory slot `i`. */
  function FileAt(d: Disk, i: nat): Option<File>
    requires i < |d.dir| && i < |d.inodes|
  {
    if d.dir[i].number == 0 then None
    else Some(File(Text(d.dir[i].filename), d.inodes[i].permissions, Data(d.inodes[i], d.storage)))
  }

  /** The files of the disk, by directory slot. */
  function Files(d: Disk): (r: seq<Option<File>>)
    requires |d.inodes| == |d.dir|
    ensures |r| == |d.dir| && forall i :: 0 <= i < |r| ==> r[i] == FileAt(d, i)
  {
    seq(|d.dir|, i requires 0 <= i < |d.dir| => FileAt(d, i))
  }

  predicate Is(f: Option<File>, name: seq<char>) {
    f.Some? && f.value.name == name
  }

  /** The first slot with that name, or the number of slots. */
  function Lookup(files: seq<Option<File>>, name: seq<char>): (i: nat)
    ensures i <= |files|
    ensures i < |files| ==> Is(files[i], name)
    ensures forall k :: 0 <= k < i ==> !Is(files[k], name)
  {
    if files == [] || Is(files[0], name) then 0 else 1 + Lookup(files[1..], name)
  }

  lemma LookupIs(files: seq<Option<File>>, name: seq<char>, i: nat)
    requires i <= |files| && (i < |files| ==> Is(files[i], name)) && forall k :: 0 <= k < i ==> !Is(files[k], name)
    ensures Lookup(files, name) == i
  {
  }

  /** The first slot without a file, or the number of slots. */
  function FirstFree(files: seq<Option<File>>): (i: nat)
    ensures i <= |files|
    ensures i < |files| ==> files[i] == None
    ensures forall k :: 0 <= k < i ==> files[k].Some?
  {
    if files == [] || files[0] == None then 0 else 1 + FirstFree(files[1..])
  }

  lemma FirstFreeIs(files: seq<Option<File>>, i: nat)
    requires i <= |files| && (i < |files| ==> files[i] == None) && forall k :: 0 <= k < i ==> files[k].Some?
    ensures FirstFree(files) == i
  {
  }

  /** No file before the first free slot has that name. */
  predicate NameIsFree(files: seq<Option<File>>, name: seq<char>) {
    forall k :: 0 <= k < FirstFree(files) ==> !Is(files[k], name)
  }

  /** A file that goes to the first free slot is the one found by its name iff no slot before has
      that name. */
  lemma CreatedIsFound(files: seq<Option<File>>, file: File)
    requires FirstFree(files) < |files|
    ensures var r := FirstFree(files);
      Lookup(files[r := Some(file)], file.name) == r <==> NameIsFree(files, file.name)
  {
    var r := FirstFree(files);
    LookupUpdate(files, r, Some(file), file.name);
  }

  /** What a name refers to when slot `i` changes to `x`: a write or chmod leaves it alone, a new
      file is found by its name iff no earlier slot has that name, and a deleted file uncovers the
      next one of its name. */
  lemma LookupUpdate(files: seq<Option<File>>, i: nat, x: Option<File>, name: seq<char>)
    requires i < |files|
    ensures var k := Lookup(files, name);
      Lookup(files[i := x], name) ==
        if Is(x, name) then (if k < i then k else i)
        else if k == i then i + 1 + Lookup(files[i + 1..], name)
        else k
  {
    var k, t := Lookup(files, name), files[i := x];
    if Is(x, name) {
      LookupIs(t, name, if k < i then k else i);
    } else if k == i {
      var rest := Lookup(files[i + 1..], name);
      forall j | i < j < i + 1 + rest ensures !Is(t[j], name) {
        assert t[j] == files[i + 1..][j - i - 1];
      }
      LookupIs(t, name, i + 1 + rest);
    } else {
      LookupIs(t, name, k);
    }
  }

  /** From `d` to `t` only slot `k` changed: its inode, its directory entry and the blocks that it
      holds before. */
  ghost predicate OnlySlot(d: Disk, t: Disk, k: nat) {
    && |t.inodes| == |d.inodes| && |t.dir| == |d.dir| && |t.storage| == |d.storage|
    && (forall i :: 0 <= i < |d.inodes| && i != k ==> t.inodes[i] == d.inodes[i])
    && (forall i :: 0 <= i < |d.dir| && i != k ==> t.dir[i] == d.dir[i])
    && (forall b :: 0 <= b < |d.storage| && (forall j :: !Owns(d.inodes, k, j, b)) ==> t.storage[b] == d.storage[b])
  }

  /** Then the other files are the same. */
  lemma OthersKept(d: Disk, t: Disk, k: nat)
    requires Inv(d) && OnlySlot(d, t, k) && k < MAX_FILES
    ensures forall i :: 0 <= i < MAX_FILES && i != k ==> FileAt(t, i) == FileAt(d, i)
    ensures Files(t) == Files(d)[k := FileAt(t, k)]
  {
    forall i | 0 <= i < MAX_FILES && i != k ensures FileAt(t, i) == FileAt(d, i) {
      var n := d.inodes[i];
      forall x | 0 <= x < n.size ensures ByteAt(n.blocks, t.storage, x) == ByteAt(n.blocks, d.storage, x) {
        OtherByte(d, t, k, i, x);
      }
      assert Data(n, t.storage) == Data(n, d.storage);
    }
  }

  lemma OtherByte(d: Disk, t: Disk, k: nat, i: nat, x: nat)
    requires Inv(d) && OnlySlot(d, t, k) && k < MAX_FILES && i < MAX_FILES && i != k
    ensures ByteAt(d.inodes[i].blocks, t.storage, x) == ByteAt(d.inodes[i].blocks, d.storage, x)
  {
    var j := x / BLOCK_SIZE;
    if j < |d.inodes[i].blocks| && d.inodes[i].blocks[j] != NONE {
      assert Owns(d.inodes, i, j, d.inodes[i].blocks[j]);
    }
  }

  // ---------- The operations keep the invariant ----------

  /** A change of one slot. */
  lemma SlotInv(d: Disk, t: Disk, k: nat)
    requires Inv(d) && k < MAX_FILES && |t.inodes| == MAX_FILES && |t.dir| == MAX_FILES && IsStorage(t.storage)
    requires t.inodes == d.inodes[k := t.inodes[k]] && t.dir == d.dir[k := t.dir[k]]
    requires SlotOk(t.inodes[k], t.dir[k], k) && OwnInv(t.inodes, t.bitmap) && t.freeBlocks == CountFree(t.bitmap)
    requires t.freeInodes == d.freeInodes - (if Live(d.inodes[k]) then 0 else 1) + (if Live(t.inodes[k]) then 0 else 1)
    ensures Inv(t)
  {
    CountDeadUpdate(d.inodes, k, t.inodes[k]);
    forall i | 0 <= i < MAX_FILES ensures SlotOk(t.inodes[i], t.dir[i], i) {
      assert SlotOk(d.inodes[i], d.dir[i], i);
    }
  }

  /** allocate_blocks gives inode `k` one more block. */
  ghost function Grown(d: Disk, k: nat, b: nat): Disk
    requires k < |d.inodes| && b < |d.bitmap| && Used(d.inodes[k].blocks) < |d.inodes[k].blocks|
  {
    d.(inodes := d.inodes[k := SetBlock(d.inodes[k], Used(d.inodes[k].blocks), b)],
       bitmap := d.bitmap[b := 1], freeBlocks := d.freeBlocks - 1)
  }

  lemma GrowInv(d: Disk, k: nat, b: nat)
    requires Inv(d) && k < MAX_FILES && Live(d.inodes[k]) && b < BLOCK_COUNT && d.bitmap[b] == 0
    requires SlotOk(d.inodes[k], d.dir[k], k) && Used(d.inodes[k].blocks) < MAX_BLOCKS_PER_FILE
    ensures Used(Grown(d, k, b).inodes[k].blocks) == Used(d.inodes[k].blocks) + 1
    ensures Inv(Grown(d, k, b))
  {
    var a := Used(d.inodes[k].blocks);
    UsedIs(SetBlock(d.inodes[k], a, b).blocks, a + 1);
    OwnAdd(d.inodes, d.bitmap, k, a, b);
    CountFreeUpdate(d.bitmap, b, 1);
    SlotInv(d, Grown(d, k, b), k);
  }

  /** A directory slot holds a file iff its inode is in use. */
  lemma SlotsInUse(d: Disk)
    requires Inv(d)
    ensures forall i :: 0 <= i < MAX_FILES ==> (Files(d)[i].Some? <==> Live(d.inodes[i]))
  {
    forall i | 0 <= i < MAX_FILES ensures Files(d)[i].Some? <==> Live(d.inodes[i]) {
      assert SlotOk(d.inodes[i], d.dir[i], i);
    }
  }

  /** The first unused inode: its directory slot is the first unused one, and a block is free. */
  lemma UnusedSlot(d: Disk, k: nat)
    requires Inv(d) && k < MAX_FILES && !Live(d.inodes[k])
    requires forall i :: 0 <= i < k ==> d.inodes[i].number != 0
    ensures SlotOk(d.inodes[k], d.dir[k], k) && d.dir[k].number == 0
    ensures forall i :: 0 <= i < k ==> d.dir[i].number != 0
    ensures exists b :: 0 <= b < BLOCK_COUNT && d.bitmap[b] == 0
  {
    forall j | 0 <= j < MAX_FILES ensures SlotOk(d.inodes[j], d.dir[j], j) {
    }
    SpaceLeft(d.inodes, d.bitmap, k);
  }

  /** From `d` to `t`, inode `k` got `n` more blocks and nothing else changed. */
  ghost predicate OnlyGrown(d: Disk, t: Disk, k: nat, n: nat)
    requires k < |d.inodes|
  {
    && |t.inodes| == |d.inodes|
    && t.inodes == d.inodes[k := d.inodes[k].(blocks := t.inodes[k].blocks)]
    && t.dir == d.dir && t.storage == d.storage && t.freeInodes == d.freeInodes
    && |t.inodes[k].blocks| == |d.inodes[k].blocks|
    && Used(t.inodes[k].blocks) == Used(d.inodes[k].blocks) + n
    && forall j :: 0 <= j < Used(d.inodes[k].blocks) ==> t.inodes[k].blocks[j] == d.inodes[k].blocks[j]
  }

  lemma GrownTwice(d: Disk, e: Disk, t: Disk, k: nat, n: nat)
    requires k < |d.inodes| && OnlyGrown(d, e, k, n) && OnlyGrown(e, t, k, 1)
    ensures OnlyGrown(d, t, k, n + 1)
  {
  }

  /** The first unused slot of a live inode is the one behind the used ones; a block for it exists. */
  lemma GrowStep(d: Disk, k: nat, i: nat)
    requires Inv(d) && k < MAX_FILES && Live(d.inodes[k]) && i < MAX_BLOCKS_PER_FILE && i <= Used(d.inodes[k].blocks)
    requires SlotOk(d.inodes[k], d.dir[k], k) && d.inodes[k].blocks[i] == NONE
    ensures i == Used(d.inodes[k].blocks)
    ensures exists b :: 0 <= b < BLOCK_COUNT && d.bitmap[b] == 0
    ensures forall b :: 0 <= b < BLOCK_COUNT && d.bitmap[b] == 0 ==>
      Inv(Grown(d, k, b)) && OnlyGrown(d, Grown(d, k, b), k, 1)
  {
    forall j | 0 <= j < MAX_FILES ensures |d.inodes[j].blocks| == MAX_BLOCKS_PER_FILE && IsPrefix(d.inodes[j].blocks) {
      assert SlotOk(d.inodes[j], d.dir[j], j);
    }
    SpaceLeft(d.inodes, d.bitmap, k);
    forall b | 0 <= b < BLOCK_COUNT && d.bitmap[b] == 0
      ensures Inv(Grown(d, k, b)) && OnlyGrown(d, Grown(d, k, b), k, 1)
    {
      GrowInv(d, k, b);
    }
  }

  /** A write changes the size and the contents of blocks. */
  lemma ResizeInv(d: Disk, k: nat, size: nat, storage: Storage)
    requires Inv(d) && k < MAX_FILES && SlotOk(d.inodes[k], d.dir[k], k)
    requires Live(d.inodes[k]) && Claimed(size) <= Used(d.inodes[k].blocks) && IsStorage(storage)
    ensures Inv(d.(inodes := d.inodes[k := d.inodes[k].(size := size)], storage := storage))
  {
    var t := d.(inodes := d.inodes[k := d.inodes[k].(size := size)], storage := storage);
    OwnSame(d.inodes, t.inodes, d.bitmap);
    SlotInv(d, t, k);
  }

  /** `t` holds `data` from byte `z` of the file on, what `s` holds before, and outside the blocks of
      the file what `s` holds. */
  ghost predicate Wrote(blocks: seq<int>, s: Storage, t: Storage, z: nat, data: seq<char>) {
    && IsStorage(s) && IsStorage(t)
    && (forall x :: 0 <= x < z ==> ByteAt(blocks, t, x) == ByteAt(blocks, s, x))
    && (forall x :: z <= x < z + |data| ==> ByteAt(blocks, t, x) == data[x - z])
    && (forall b :: 0 <= b < BLOCK_COUNT && b !in blocks ==> t[b] == s[b])
  }

  /** More blocks for a file change no file. */
  lemma GrownSameFiles(d: Disk, t: Disk, k: nat, n: nat)
    requires Inv(d) && k < MAX_FILES && SlotOk(d.inodes[k], d.dir[k], k) && OnlyGrown(d, t, k, n)
    ensures Files(t) == Files(d)
  {
    OthersKept(d, t, k);
    var (a, b) := (d.inodes[k], t.inodes[k]);
    forall x | 0 <= x < a.size ensures ByteAt(a.blocks, d.storage, x) == ByteAt(b.blocks, d.storage, x) {
      assert x / BLOCK_SIZE < Used(a.blocks);
    }
    assert Data(a, d.storage) == Data(b, d.storage);
    assert FileAt(d, k) == FileAt(t, k);
  }

  /** The file in slot `k` after a write of `data` from byte `z` on. */
  function Rewritten(files: seq<Option<File>>, k: nat, z: nat, data: seq<char>): (r: seq<Option<File>>)
    ensures k < |files| && files[k].Some? ==>
      var was := files[k].value.data;
      && (z == 0 ==> r == files[k := Some(files[k].value.(data := data))])
      && (z == |was| ==> r == files[k := Some(files[k].value.(data := was + data))])
  {
    if k < |files| && files[k].Some? && z <= |files[k].value.data| then
      var was := files[k].value.data;
      assert was[..0] + data == data && was[..|was|] + data == was + data;
      files[k := Some(files[k].value.(data := was[..z] + data))]
    else files
  }

  /** A write to the blocks of a file, with the size that goes with it, changes that file only. */
  lemma WrittenFiles(d: Disk, k: nat, z: nat, data: seq<char>, storage: Storage)
    requires Inv(d) && k < MAX_FILES && SlotOk(d.inodes[k], d.dir[k], k) && Live(d.inodes[k])
    requires z <= d.inodes[k].size && Wrote(d.inodes[k].blocks, d.storage, storage, z, data)
    ensures var t := d.(inodes := d.inodes[k := d.inodes[k].(size := z + |data|)], storage := storage);
      Files(t) == Rewritten(Files(d), k, z, data)
  {
    var n := d.inodes[k];
    var t := d.(inodes := d.inodes[k := n.(size := z + |data|)], storage := storage);
    forall b | 0 <= b < BLOCK_COUNT && (forall j :: !Owns(d.inodes, k, j, b)) ensures storage[b] == d.storage[b] {
      if b in n.blocks {
        var j :| 0 <= j < |n.blocks| && n.blocks[j] == b;
        assert Owns(d.inodes, k, j, b);
      }
    }
    OthersKept(d, t, k);
    assert Data(t.inodes[k], storage) == Data(n, d.storage)[..z] + data;
  }

  lemma ChmodInv(d: Disk, k: nat, permissions: bv16)
    requires Inv(d) && k < MAX_FILES && SlotOk(d.inodes[k], d.dir[k], k)
    ensures Inv(d.(inodes := d.inodes[k := d.inodes[k].(permissions := permissions)]))
  {
    var t := d.(inodes := d.inodes[k := d.inodes[k].(permissions := permissions)]);
    OwnSame(d.inodes, t.inodes, d.bitmap);
    SlotInv(d, t, k);
  }

  /** What create_file stores in inode and directory slot `k`. */
  ghost function Created(d: Disk, k: nat, b: nat, filename: seq<char>): Disk
    requires k < |d.inodes| && k < |d.dir| && b < |d.bitmap| && |d.inodes[k].blocks| > 0
  {
    d.(inodes := d.inodes[k := Inode(k + 1, 0, d.inodes[k].blocks[0 := b], ALL_ALLOWED)],
       dir := d.dir[k := DirEntry(filename, k + 1)],
       bitmap := d.bitmap[b := 1], freeInodes := d.freeInodes - 1, freeBlocks := d.freeBlocks - 1)
  }

  lemma CreatedInv(d: Disk, k: nat, b: nat, filename: seq<char>)
    requires Inv(d) && k < MAX_FILES && SlotOk(d.inodes[k], d.dir[k], k) && !Live(d.inodes[k])
    requires b < BLOCK_COUNT && d.bitmap[b] == 0 && NameOk(DirEntry(filename, k + 1))
    ensures Inv(Created(d, k, b, filename))
    ensures FileAt(Created(d, k, b, filename), k) == Some(File(Text(filename), ALL_ALLOWED, []))
  {
    var t := Created(d, k, b, filename);
    var n := t.inodes[k];
    UsedIs(n.blocks, 1);
    OwnAdd(d.inodes, d.bitmap, k, 0, b);
    OwnSame(d.inodes[k := SetBlock(d.inodes[k], 0, b)], t.inodes, t.bitmap);
    CountFreeUpdate(d.bitmap, b, 1);
    SlotInv(d, t, k);
  }

  function NoBlocks(): seq<int> {
    [NONE, NONE, NONE, NONE]
  }

  /** delete_file, once inode `k` has lost its blocks. */
  ghost function Deleted(d: Disk, k: nat, bitmap: seq<int>, filename: seq<char>): Disk
    requires k < |d.inodes| && k < |d.dir|
  {
    d.(inodes := d.inodes[k := Inode(0, 0, NoBlocks(), d.inodes[k].permissions)],
       dir := d.dir[k := DirEntry(filename, 0)], bitmap := bitmap,
       freeInodes := d.freeInodes + 1, freeBlocks := CountFree(bitmap))
  }

  lemma DeletedInv(d: Disk, k: nat, inodes: seq<Inode>, bitmap: seq<int>, filename: seq<char>)
    requires Inv(d) && k < MAX_FILES && Live(d.inodes[k])
    requires inodes == d.inodes[k := d.inodes[k].(blocks := NoBlocks())] && OwnInv(inodes, bitmap)
    ensures Inv(Deleted(d, k, bitmap, filename)) && FileAt(Deleted(d, k, bitmap, filename), k) == None
  {
    var t := Deleted(d, k, bitmap, filename);
    UsedIs(NoBlocks(), 0);
    OwnSame(inodes, t.inodes, bitmap);
    SlotInv(d, t, k);
  }

  // ---------- A formatted disk ----------

  predicate IsCleared(n: Inode) {
    n.number == 0 && n.size == 0 && n.blocks == NoBlocks()
  }

  lemma {:induction false} AllDead(inodes: seq<Inode>)
    requires forall i :: 0 <= i < |inodes| ==> !Live(inodes[i])
    ensures CountDead(inodes) == |inodes|
  {
    if inodes != [] {
      AllDead(inodes[1..]);
    }
  }

  lemma {:induction false} AllFree(bitmap: seq<int>)
    requires forall b :: 0 <= b < |bitmap| ==> bitmap[b] == 0
    ensures CountFree(bitmap) == |bitmap|
  {
    if bitmap != [] {
      AllFree(bitmap[1..]);
    }
  }

  lemma EmptyInv(d: Disk)
    requires |d.inodes| == MAX_FILES && |d.dir| == MAX_FILES && IsStorage(d.storage) && |d.bitmap| == BLOCK_COUNT
    requires forall i :: 0 <= i < MAX_FILES ==> IsCleared(d.inodes[i]) && d.dir[i].number == 0
    requires forall b :: 0 <= b < BLOCK_COUNT ==> d.bitmap[b] == 0
    requires d.freeInodes == MAX_FILES && d.freeBlocks == BLOCK_COUNT
    ensures Inv(d)
  {
    UsedIs(NoBlocks(), 0);
    AllDead(d.inodes);
    AllFree(d.bitmap);
    forall i | 0 <= i < MAX_FILES ensures SlotOk(d.inodes[i], d.dir[i], i) {
      assert IsCleared(d.inodes[i]);
    }
    assert forall i, j, b :: !Owns(d.inodes, i, j, b);
  }

  // ---------- Spare blocks ----------

  /** C + 4 - A blocks: as far as write_file and append_to_file can extend a file. */
  function Room(n: Inode): int {
    (Claimed(n.size) + MAX_BLOCKS_PER_FILE - Used(n.blocks)) * BLOCK_SIZE
  }

  /** A - C: allocated blocks that the size does not account for. */
  function Slack(n: Inode): int {
    Used(n.blocks) - Claimed(n.size)
  }

  /** The spare blocks of every inode; -1 for one that is not in use. */
  function Spares(inodes: seq<Inode>): (r: seq<int>)
    ensures |r| == |inodes| && forall i :: 0 <= i < |r| ==> r[i] == Slack(inodes[i])
  {
    seq(|inodes|, i requires 0 <= i < |inodes| => Slack(inodes[i]))
  }

  lemma SparesUpdate(inodes: seq<Inode>, i: nat, m: Inode)
    requires i < |inodes|
    ensures Spares(inodes[i := m]) == Spares(inodes)[i := Slack(m)]
    ensures Slack(m) == Slack(inodes[i]) ==> Spares(inodes[i := m]) == Spares(inodes)
  {
  }

  /** A new file has no spare blocks. */
  lemma CreatedSpares(d: Disk, k: nat, b: nat, filename: seq<char>)
    requires k < |d.inodes| && k < |d.dir| && b < |d.bitmap| && InodeOk(d.inodes[k]) && !Live(d.inodes[k])
    ensures Spares(Created(d, k, b, filename).inodes) == Spares(d.inodes)[k := 0]
  {
    var n := Created(d, k, b, filename).inodes[k];
    UsedIs(n.blocks, 1);
    SparesUpdate(d.inodes, k, n);
  }

  /** The files after the creation of one in the first slot that has none. */
  lemma CreatedFiles(d: Disk, r: nat, b: nat, filename: seq<char>)
    requires Inv(d) && r < MAX_FILES && SlotOk(d.inodes[r], d.dir[r], r) && !Live(d.inodes[r])
    requires b < BLOCK_COUNT && d.bitmap[b] == 0 && IsString(filename) && |Text(filename)| < MAX_FILENAME_LEN
    requires forall i :: 0 <= i < r ==> Files(d)[i].Some?
    ensures var (f, t) := (Files(d), Created(d, r, b, Padded(Text(filename), MAX_FILENAME_LEN)));
      && Inv(t) && f[r] == None && Files(t) == f[r := Some(File(Text(filename), ALL_ALLOWED, []))]
      && Spares(t.inodes) == Spares(d.inodes)[r := 0]
      && (Lookup(Files(t), Text(filename)) == r <==> NameIsFree(f, Text(filename)))
  {
    var name := Padded(Text(filename), MAX_FILENAME_LEN);
    StoredIsFound(Text(filename), MAX_FILENAME_LEN, filename);
    CreatedInv(d, r, b, name);
    CreatedSpares(d, r, b, name);
    OthersKept(d, Created(d, r, b, name), r);
    FirstFreeIs(Files(d), r);
    CreatedIsFound(Files(d), File(Text(filename), ALL_ALLOWED, []));
  }

  lemma DeletedSpares(d: Disk, k: nat, bitmap: seq<int>, filename: seq<char>)
    requires k < |d.inodes| && k < |d.dir|
    ensures Spares(Deleted(d, k, bitmap, filename).inodes) == Spares(d.inodes)[k := -1]
  {
    var n := Deleted(d, k, bitmap, filename).inodes[k];
    UsedIs(NoBlocks(), 0);
    SparesUpdate(d.inodes, k, n);
  }
}
