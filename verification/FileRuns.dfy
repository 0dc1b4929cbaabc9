/** The file system in place refines `FileStore`: on any operations it returns what the row of slots
    returns, and holds the same files. */
module FileRuns {
  import opened CString
  import opened Disk
  import opened FileStore
  import FS = FileSystem

  /** The slot that a disk represents at `i`. */
  function SlotOf(file: Option<File>, spare: int): Option<Slot> {
    if file.None? then None else Some(Slot(file.value, spare))
  }

  function StoreOf(d: Disk): (s: Store)
    requires |d.inodes| == |d.dir|
    ensures |s| == |d.dir| && forall i :: 0 <= i < |s| ==> s[i] == SlotOf(Files(d)[i], Spares(d.inodes)[i])
  {
    seq(|d.dir|, i requires 0 <= i < |d.dir| => SlotOf(Files(d)[i], Spares(d.inodes)[i]))
  }

  /** The files and the spare blocks determine the store. */
  lemma StoreIs(d: Disk, s: Store)
    requires |d.inodes| == |d.dir| == |s|
    requires forall i :: 0 <= i < |s| ==> s[i] == SlotOf(Files(d)[i], Spares(d.inodes)[i])
    ensures StoreOf(d) == s
  {
  }

  lemma StoreOfIsOk(d: Disk)
    requires Inv(d)
    ensures StoreOk(StoreOf(d)) && FilesOf(StoreOf(d)) == Files(d)
  {
    forall i | 0 <= i < MAX_FILES && StoreOf(d)[i].Some? ensures SlotFits(StoreOf(d)[i].value) {
      assert SlotOk(d.inodes[i], d.dir[i], i);
    }
  }

  /** A slot that changes, in the files and in the spare blocks. */
  lemma StoreUpdate(d: Disk, t: Disk, i: nat, file: Option<File>, spare: int)
    requires Inv(d) && Inv(t) && i < MAX_FILES
    requires Files(t) == Files(d)[i := file]
    requires file.Some? ==> Spares(t.inodes)[i] == spare
    requires forall k :: 0 <= k < MAX_FILES && k != i ==> Spares(t.inodes)[k] == Spares(d.inodes)[k]
    ensures StoreOf(t) == StoreOf(d)[i := SlotOf(file, spare)]
  {
    StoreIs(t, StoreOf(d)[i := SlotOf(file, spare)]);
  }

  /** A formatted disk represents the empty store. */
  lemma FormattedStore(d: Disk)
    requires Inv(d) && forall i :: 0 <= i < MAX_FILES ==> Files(d)[i] == None
    ensures StoreOf(d) == Formatted()
  {
  }

  /** From `s` the operation leads to `t` with that answer. */
  ghost predicate Follows(s: Store, op: Op, t: Store, a: Answer) {
    StoreOk(s) && t == After(s, op) && a == Reply(s, op)
  }

  method Create(fs: FS.FileSystem, filename: seq<char>) returns (a: Answer)
    requires fs.Valid() && Legal(Op.Create(filename))
    modifies fs, fs.inodeTable, fs.rootDirectory, fs.blockBitmap
    ensures fs.Valid() && Follows(StoreOf(old(fs.D())), Op.Create(filename), StoreOf(fs.D()), a)
  {
    ghost var d := fs.D();
    StoreOfIsOk(d);
    var r := fs.CreateFile(filename);
    a := Answer(r, []);
    if r == -1 {
      FirstFreeIs(Files(d), MAX_FILES);
    } else {
      CreateFollows(d, fs.D(), filename, r);
    }
  }

  lemma CreateFollows(d: Disk, t: Disk, filename: seq<char>, r: nat)
    requires Inv(d) && Inv(t) && r < MAX_FILES && Files(d)[r] == None && forall i :: 0 <= i < r ==> Files(d)[i].Some?
    requires Files(t) == Files(d)[r := Some(File(Text(filename), ALL_ALLOWED, []))]
    requires Spares(t.inodes) == Spares(d.inodes)[r := 0]
    ensures Follows(StoreOf(d), Op.Create(filename), StoreOf(t), Answer(r, []))
  {
    StoreOfIsOk(d);
    FirstFreeIs(Files(d), r);
    StoreUpdate(d, t, r, Some(File(Text(filename), ALL_ALLOWED, [])), 0);
  }

  method Chmod(fs: FS.FileSystem, filename: seq<char>, permissions: bv16) returns (a: Answer)
    requires fs.Valid() && Legal(Op.Chmod(filename, permissions))
    modifies fs.inodeTable
    ensures fs.Valid() && Follows(StoreOf(old(fs.D())), Op.Chmod(filename, permissions), StoreOf(fs.D()), a)
  {
    ghost var d := fs.D();
    StoreOfIsOk(d);
    var r := fs.ChmodFile(filename, permissions);
    a := Answer(r, []);
    if r != -1 {
      ghost var i := Lookup(Files(d), Text(filename));
      StoreUpdate(d, fs.D(), i, Some(Files(d)[i].value.(permissions := permissions)), Spares(d.inodes)[i]);
    }
  }

  method Delete(fs: FS.FileSystem, filename: seq<char>) returns (a: Answer)
    requires fs.Valid() && Legal(Op.Delete(filename))
    modifies fs, fs.inodeTable, fs.rootDirectory, fs.blockBitmap
    ensures fs.Valid() && Follows(StoreOf(old(fs.D())), Op.Delete(filename), StoreOf(fs.D()), a)
  {
    ghost var d := fs.D();
    StoreOfIsOk(d);
    var r := fs.DeleteFile(filename);
    a := Answer(r, []);
    if r != -1 {
      DeleteFollows(d, fs.D(), Lookup(Files(d), Text(filename)), filename);
    }
  }

  lemma DeleteFollows(d: Disk, t: Disk, i: nat, filename: seq<char>)
    requires Inv(d) && Inv(t) && i == Lookup(Files(d), Text(filename)) < MAX_FILES
    requires CheckPermissions(Files(d)[i].value.permissions, 1)
    requires Files(t) == Files(d)[i := None] && Spares(t.inodes) == Spares(d.inodes)[i := -1]
    ensures Follows(StoreOf(d), Op.Delete(filename), StoreOf(t), Answer(0, []))
  {
    SlotAt(d, i);
    StoreUpdate(d, t, i, None, -1);
  }

  method Write(fs: FS.FileSystem, filename: seq<char>, buffer: seq<char>) returns (a: Answer)
    requires fs.Valid() && Legal(Op.Write(filename, buffer))
    modifies fs, fs.inodeTable, fs.storage, fs.blockBitmap
    ensures fs.Valid() && Follows(StoreOf(old(fs.D())), Op.Write(filename, buffer), StoreOf(fs.D()), a)
  {
    ghost var d := fs.D();
    StoreOfIsOk(d);
    var r := fs.WriteFile(filename, buffer, |buffer|);
    a := Answer(r, []);
    if r != -1 {
      WriteFollows(d, fs.D(), Lookup(Files(d), Text(filename)), filename, buffer, r);
    }
  }

  lemma WriteFollows(d: Disk, t: Disk, i: nat, filename: seq<char>, buffer: seq<char>, r: int)
    requires Inv(d) && Inv(t) && i == Lookup(Files(d), Text(filename)) < MAX_FILES
    requires CheckPermissions(Files(d)[i].value.permissions, 1) && t.inodes == d.inodes[i := t.inodes[i]]
    requires 0 <= r == Min(Min(|buffer|, MAX_SIZE), Room(d.inodes[i]))
    requires Files(t) == Files(d)[i := Some(Files(d)[i].value.(data := buffer[..r]))]
    requires Slack(t.inodes[i]) == Slack(d.inodes[i]) + FS.Freed(d.inodes[i], |buffer|)
    ensures Follows(StoreOf(d), Op.Write(filename, buffer), StoreOf(t), Answer(r, []))
  {
    SlotAt(d, i);
    SparesUpdate(d.inodes, i, t.inodes[i]);
    StoreUpdate(d, t, i, Some(Files(d)[i].value.(data := buffer[..r])), Slack(t.inodes[i]));
    WrittenSlot(StoreOf(d), i, filename, buffer, r, Slack(t.inodes[i]));
  }

  /** What slot `i` of a disk represents. */
  lemma SlotAt(d: Disk, i: nat)
    requires Inv(d) && i < MAX_FILES && Files(d)[i].Some?
    ensures StoreOk(StoreOf(d)) && FilesOf(StoreOf(d)) == Files(d)
    ensures StoreOf(d)[i] == Some(Slot(Files(d)[i].value, Slack(d.inodes[i])))
    ensures |Files(d)[i].value.data| == d.inodes[i].size && Capacity(Slack(d.inodes[i])) == Room(d.inodes[i])
  {
    StoreOfIsOk(d);
  }

  lemma WrittenSlot(s: Store, i: nat, filename: seq<char>, buffer: seq<char>, r: nat, spare: int)
    requires StoreOk(s) && i == Find(s, filename) < |s| && Allows(s, filename, 1)
    requires var x := s[i].value;
      && r == Min(Min(|buffer|, MAX_SIZE), Capacity(x.spare))
      && spare == x.spare + Max(0, Claimed(|x.file.data|) - Claimed(Min(|buffer|, MAX_SIZE)))
    ensures Follows(s, Op.Write(filename, buffer), s[i := Some(Slot(s[i].value.file.(data := buffer[..r]), spare))], Answer(r, []))
  {
  }

  lemma AppendedSlot(s: Store, i: nat, filename: seq<char>, buffer: seq<char>, r: nat)
    requires StoreOk(s) && i == Find(s, filename) < |s| && Allows(s, filename, 1) && |s[i].value.file.data| < MAX_SIZE
    requires var (x, z) := (s[i].value, |s[i].value.file.data|);
      r == Min(Min(|buffer|, MAX_SIZE - z), Capacity(x.spare) - z)
    ensures var f := s[i].value.file;
      Follows(s, Op.Append(filename, buffer), s[i := Some(Slot(f.(data := f.data + buffer[..r]), s[i].value.spare))], Answer(r, []))
  {
  }

  method Append(fs: FS.FileSystem, filename: seq<char>, buffer: seq<char>) returns (a: Answer)
    requires fs.Valid() && Legal(Op.Append(filename, buffer))
    modifies fs, fs.inodeTable, fs.storage, fs.blockBitmap
    ensures fs.Valid() && Follows(StoreOf(old(fs.D())), Op.Append(filename, buffer), StoreOf(fs.D()), a)
  {
    ghost var d := fs.D();
    var r := fs.AppendFile(filename, buffer, |buffer|);
    a := Answer(r, []);
    if r == -1 {
      AppendRefused(d, filename, buffer);
    } else {
      AppendFollows(d, fs.D(), Lookup(Files(d), Text(filename)), filename, buffer, r);
    }
  }

  lemma AppendRefused(d: Disk, filename: seq<char>, buffer: seq<char>)
    requires Inv(d)
    requires var i := Lookup(Files(d), Text(filename));
      !(i < MAX_FILES && CheckPermissions(Files(d)[i].value.permissions, 1) && |Files(d)[i].value.data| < MAX_SIZE)
    ensures Follows(StoreOf(d), Op.Append(filename, buffer), StoreOf(d), FAILED)
  {
    StoreOfIsOk(d);
  }

  lemma AppendFollows(d: Disk, t: Disk, i: nat, filename: seq<char>, buffer: seq<char>, r: int)
    requires Inv(d) && Inv(t) && i == Lookup(Files(d), Text(filename)) < MAX_FILES
    requires CheckPermissions(Files(d)[i].value.permissions, 1) && t.inodes == d.inodes[i := t.inodes[i]]
    requires d.inodes[i].size < MAX_SIZE
    requires 0 <= r == Min(Min(|buffer|, MAX_SIZE - d.inodes[i].size), Room(d.inodes[i]) - d.inodes[i].size)
    requires Files(t) == Files(d)[i := Some(Files(d)[i].value.(data := Files(d)[i].value.data + buffer[..r]))]
    requires Slack(t.inodes[i]) == Slack(d.inodes[i])
    ensures Follows(StoreOf(d), Op.Append(filename, buffer), StoreOf(t), Answer(r, []))
  {
    SlotAt(d, i);
    SparesUpdate(d.inodes, i, t.inodes[i]);
    StoreUpdate(d, t, i, Some(Files(d)[i].value.(data := Files(d)[i].value.data + buffer[..r])), Slack(t.inodes[i]));
    AppendedSlot(StoreOf(d), i, filename, buffer, r);
  }

  method Read(fs: FS.FileSystem, filename: seq<char>, size: nat) returns (a: Answer)
    requires fs.Valid() && Legal(Op.Read(filename, size))
    ensures fs.D() == old(fs.D()) && Follows(StoreOf(fs.D()), Op.Read(filename, size), StoreOf(fs.D()), a)
  {
    StoreOfIsOk(fs.D());
    var buffer := new char[size];
    var r := fs.ReadFile(filename, buffer, size);
    a := Answer(r, if r == -1 then [] else buffer[..r]);
  }

  /** Any operation does in place what it does to the row of slots. */
  method Perform(fs: FS.FileSystem, op: Op) returns (a: Answer)
    requires fs.Valid() && Legal(op)
    modifies fs, fs.inodeTable, fs.rootDirectory, fs.storage, fs.blockBitmap
    ensures fs.Valid() && Follows(StoreOf(old(fs.D())), op, StoreOf(fs.D()), a)
  {
    match op {
      case Create(filename) => a := Create(fs, filename);
      case Chmod(filename, permissions) => a := Chmod(fs, filename, permissions);
      case Delete(filename) => a := Delete(fs, filename);
      case Write(filename, buffer) => a := Write(fs, filename, buffer);
      case Append(filename, buffer) => a := Append(fs, filename, buffer);
      case Read(filename, size) => a := Read(fs, filename, size);
    }
  }

  /** Any operations on a disk that has just been formatted: the invariant holds after each, and the
      answers and the files are those of the row of slots. */
  method Replay(fs: FS.FileSystem, ops: seq<Op>) returns (r: seq<Answer>)
    requires fs.Shaped() && forall k :: 0 <= k < |ops| ==> Legal(ops[k])
    modifies fs, fs.inodeTable, fs.rootDirectory, fs.storage, fs.blockBitmap
    ensures fs.Valid() && StoreOf(fs.D()) == Run(ops) && r == Replies(ops)
  {
    fs.FormatDisk();
    FormattedStore(fs.D());
    r := [];
    for k := 0 to |ops|
      invariant fs.Valid() && StoreOf(fs.D()) == Run(ops[..k]) && r == Replies(ops[..k])
    {
      RunMore(ops, k);
      var a := Perform(fs, ops[k]);
      r := r + [a];
    }
    assert ops[..|ops|] == ops;
  }

  /** In place, a file that was full and then was cut to one byte takes one block of what is written. */
  method CutAndRefill(fs: FS.FileSystem, filename: seq<char>, buffer: seq<char>) returns (full: int, cut: int, again: int)
    requires fs.Shaped() && Legal(Op.Create(filename)) && |buffer| == 16384
    modifies fs, fs.inodeTable, fs.rootDirectory, fs.storage, fs.blockBitmap
    ensures full == 16384 && cut == 1 && again == 4096
    ensures fs.Valid() && Files(fs.D())[0] == Some(File(Text(filename), 7, buffer[..4096]))
  {
    CutFile(filename, buffer);
    var r := Replay(fs, CutOps(filename, buffer));
    StoreOfIsOk(fs.D());
    full, cut, again := r[1].code, r[2].code, r[3].code;
  }

  /** In place, the second of two files with the same name is there and is not found. */
  method CreateTwice(fs: FS.FileSystem, filename: seq<char>) returns (first: int, second: int)
    requires fs.Shaped() && Legal(Op.Create(filename))
    modifies fs, fs.inodeTable, fs.rootDirectory, fs.storage, fs.blockBitmap
    ensures first == 0 && second == 1
    ensures fs.Valid() && Is(Files(fs.D())[1], Text(filename)) && Lookup(Files(fs.D()), Text(filename)) == 0
  {
    TwiceCreated(filename);
    var r := Replay(fs, [Op.Create(filename), Op.Create(filename)]);
    StoreOfIsOk(fs.D());
    first, second := r[0].code, r[1].code;
  }
}
