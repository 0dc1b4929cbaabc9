/** What the file system is for its callers: a row of slots, each with a named byte sequence, its
    permissions and its number of spare blocks.  Every operation and every run of operations is a
    function of these. */
module FileStore {
  import opened CString
  import opened Disk

  /** A file and its spare blocks: blocks that it holds and that its size does not account for. */
  datatype Slot = Slot(file: File, spare: int)

  type Store = seq<Option<Slot>>

  /** The blocks of a file: those that its size accounts for and the spare ones are at most four. */
  predicate SlotFits(s: Slot) {
    0 <= s.spare && s.spare + Claimed(|s.file.data|) <= MAX_BLOCKS_PER_FILE
  }

  predicate StoreOk(s: Store) {
    |s| == MAX_FILES && forall i :: 0 <= i < |s| && s[i].Some? ==> SlotFits(s[i].value)
  }

  function FileIn(s: Option<Slot>): Option<File> {
    if s.None? then None else Some(s.value.file)
  }

  function FilesOf(s: Store): (r: seq<Option<File>>)
    ensures |r| == |s| && forall i :: 0 <= i < |s| ==> r[i] == FileIn(s[i])
  {
    seq(|s|, i requires 0 <= i < |s| => FileIn(s[i]))
  }

  /** How far a file with that many spare blocks can grow. */
  function Capacity(spare: int): int {
    (MAX_BLOCKS_PER_FILE - spare) * BLOCK_SIZE
  }

  // ---------- The operations ----------

  datatype Op =
    | Create(filename: seq<char>)
    | Chmod(filename: seq<char>, permissions: bv16)
    | Delete(filename: seq<char>)
    | Write(filename: seq<char>, buffer: seq<char>)
    | Append(filename: seq<char>, buffer: seq<char>)
    | Read(filename: seq<char>, size: nat)

  /** Names are C strings, and those of new files are short enough. */
  predicate Legal(op: Op) {
    IsString(op.filename) && (op.Create? ==> |Text(op.filename)| < MAX_FILENAME_LEN)
  }

  /** What an operation returns, and the bytes that a read delivers. */
  datatype Answer = Answer(code: int, bytes: seq<char>)

  const FAILED := Answer(-1, [])

  /** The slot that a name refers to, or MAX_FILES. */
  function Find(s: Store, filename: seq<char>): (i: nat)
    ensures i <= |s|
    ensures i < |s| ==> s[i].Some? && s[i].value.file.name == Text(filename)
  {
    var i := Lookup(FilesOf(s), Text(filename));
    assert i < |s| ==> Is(FilesOf(s)[i], Text(filename));
    i
  }

  /** The name refers to a file that may be used in that mode. */
  predicate Allows(s: Store, filename: seq<char>, mode: int) {
    var i := Find(s, filename);
    i < |s| && CheckPermissions(s[i].value.file.permissions, mode)
  }

  /** The slot after a write of the buffer; a shorter file keeps its blocks. */
  function Overwritten(s: Slot, buffer: seq<char>): (t: Slot)
    requires SlotFits(s)
    ensures SlotFits(t)
  {
    var n := Min(Min(|buffer|, MAX_SIZE), Capacity(s.spare));
    Slot(s.file.(data := buffer[..n]), s.spare + Max(0, Claimed(|s.file.data|) - Claimed(Min(|buffer|, MAX_SIZE))))
  }

  /** The slot after an append of the buffer. */
  function Extended(s: Slot, buffer: seq<char>): (t: Slot)
    requires SlotFits(s)
    ensures SlotFits(t)
  {
    var z := |s.file.data|;
    var n := Min(Min(|buffer|, MAX_SIZE - z), Capacity(s.spare) - z);
    assert Claimed(z + n) <= MAX_BLOCKS_PER_FILE - s.spare;
    Slot(s.file.(data := s.file.data + buffer[..n]), s.spare)
  }

  function After(s: Store, op: Op): (t: Store)
    requires StoreOk(s)
    ensures StoreOk(t)
  {
    var i := Find(s, op.filename);
    match op
    case Create(filename) =>
      var r := FirstFree(FilesOf(s));
      if r == |s| then s else s[r := Some(Slot(File(Text(filename), ALL_ALLOWED, []), 0))]
    case Chmod(_, permissions) =>
      if i == |s| then s else s[i := Some(s[i].value.(file := s[i].value.file.(permissions := permissions)))]
    case Delete(filename) =>
      if Allows(s, filename, 1) then s[i := None] else s
    case Write(filename, buffer) =>
      if Allows(s, filename, 1) then s[i := Some(Overwritten(s[i].value, buffer))] else s
    case Append(filename, buffer) =>
      if Allows(s, filename, 1) && |s[i].value.file.data| < MAX_SIZE then s[i := Some(Extended(s[i].value, buffer))] else s
    case Read(_, _) => s
  }

  function Reply(s: Store, op: Op): Answer
    requires StoreOk(s)
  {
    var i := Find(s, op.filename);
    match op
    case Create(filename) =>
      var r := FirstFree(FilesOf(s));
      if r == |s| then FAILED else Answer(r, [])
    case Chmod(_, _) =>
      if i == |s| then FAILED else Answer(0, [])
    case Delete(filename) =>
      if Allows(s, filename, 1) then Answer(0, []) else FAILED
    case Write(filename, buffer) =>
      if Allows(s, filename, 1) then Answer(|Overwritten(s[i].value, buffer).file.data|, []) else FAILED
    case Append(filename, buffer) =>
      if Allows(s, filename, 1) && |s[i].value.file.data| < MAX_SIZE
      then Answer(|Extended(s[i].value, buffer).file.data| - |s[i].value.file.data|, []) else FAILED
    case Read(filename, size) =>
      if Allows(s, filename, 0) then
        var n := Min(size, |s[i].value.file.data|);
        Answer(n, s[i].value.file.data[..n])
      else FAILED
  }

  // ---------- Runs ----------

  /** A formatted disk has no files. */
  function Formatted(): (s: Store)
    ensures StoreOk(s)
  {
    seq(MAX_FILES, _ => None)
  }

  /** The files after the operations `ops` on a formatted disk. */
  function Run(ops: seq<Op>): (s: Store)
    ensures StoreOk(s)
  {
    if ops == [] then Formatted() else After(Run(ops[..|ops| - 1]), ops[|ops| - 1])
  }

  /** What these operations return. */
  function Replies(ops: seq<Op>): (r: seq<Answer>)
    ensures |r| == |ops|
  {
    if ops == [] then [] else Replies(ops[..|ops| - 1]) + [Reply(Run(ops[..|ops| - 1]), ops[|ops| - 1])]
  }

  lemma RunMore(ops: seq<Op>, k: nat)
    requires k < |ops|
    ensures Run(ops[..k + 1]) == After(Run(ops[..k]), ops[k])
    ensures Replies(ops[..k + 1]) == Replies(ops[..k]) + [Reply(Run(ops[..k]), ops[k])]
  {
    assert ops[..k + 1][..k] == ops[..k];
  }

  /** From operation `a` to operation `b` of a run there is always a file in slot `i`. */
  ghost predicate Exists(ops: seq<Op>, i: nat, a: nat, b: nat)
    requires i < MAX_FILES && a <= b <= |ops|
  {
    forall k :: a <= k <= b ==> Run(ops[..k])[i].Some?
  }

  /** The spare blocks of a file change only by a write to it, and then by the number of blocks that
      the old size needs more than the new bytes. */
  lemma StepSpare(s: Store, op: Op, i: nat)
    requires StoreOk(s) && i < MAX_FILES && s[i].Some? && After(s, op)[i].Some?
    ensures After(s, op)[i].value.spare == s[i].value.spare +
      if op.Write? && Allows(s, op.filename, 1) && Find(s, op.filename) == i
      then Max(0, Claimed(|s[i].value.file.data|) - Claimed(Min(|op.buffer|, MAX_SIZE))) else 0
  {
  }

  /** In every run, between its creation and its deletion a file never gets rid of spare blocks. */
  lemma {:induction false} SpareStays(ops: seq<Op>, i: nat, a: nat, b: nat)
    requires i < MAX_FILES && a <= b <= |ops| && Exists(ops, i, a, b)
    ensures Run(ops[..b])[i].value.spare >= Run(ops[..a])[i].value.spare
    decreases b
  {
    if a < b {
      SpareStays(ops, i, a, b - 1);
      RunMore(ops, b - 1);
      StepSpare(Run(ops[..b - 1]), ops[b - 1], i);
    }
  }

  /** In every run, once a write to a file needs `k` blocks fewer than the file had bytes for, that
      file is shorter than the maximal size by `k` blocks for ever. */
  lemma NeverFullAgain(ops: seq<Op>, i: nat, a: nat, b: nat)
    requires i < MAX_FILES && a < b <= |ops| && Exists(ops, i, a, b)
    requires ops[a].Write? && Allows(Run(ops[..a]), ops[a].filename, 1) && Find(Run(ops[..a]), ops[a].filename) == i
    ensures var was := |Run(ops[..a])[i].value.file.data|;
      var k := Max(0, Claimed(was) - Claimed(Min(|ops[a].buffer|, MAX_SIZE)));
      |Run(ops[..b])[i].value.file.data| <= MAX_SIZE - k * BLOCK_SIZE
  {
    WriteFrees(ops, i, a);
    SpareStays(ops, i, a + 1, b);
    assert Run(ops[..b])[i].Some?;
    SpareLimits(Run(ops[..b])[i].value, Run(ops[..a + 1])[i].value.spare);
  }

  lemma WriteFrees(ops: seq<Op>, i: nat, a: nat)
    requires i < MAX_FILES && a < |ops| && Exists(ops, i, a, a + 1)
    requires ops[a].Write? && Allows(Run(ops[..a]), ops[a].filename, 1) && Find(Run(ops[..a]), ops[a].filename) == i
    ensures Run(ops[..a + 1])[i].value.spare >=
      Max(0, Claimed(|Run(ops[..a])[i].value.file.data|) - Claimed(Min(|ops[a].buffer|, MAX_SIZE)))
  {
    RunMore(ops, a);
    StepSpare(Run(ops[..a]), ops[a], i);
    assert SlotFits(Run(ops[..a])[i].value);
  }

  lemma SpareLimits(s: Slot, k: int)
    requires SlotFits(s) && k <= s.spare
    ensures |s.file.data| <= MAX_SIZE - k * BLOCK_SIZE
  {
  }

  /** A write is read back, as far as it was stored; what other names refer to stays. */
  lemma ReadBack(s: Store, filename: seq<char>, buffer: seq<char>, other: seq<char>, size: nat)
    requires StoreOk(s) && Allows(s, filename, 1)
    ensures var t := After(s, Op.Write(filename, buffer));
      && Find(t, other) == Find(s, other)
      && (if Find(s, other) != Find(s, filename) then Reply(t, Op.Read(other, size)) == Reply(s, Op.Read(other, size))
          else if Allows(s, filename, 0) then
            var n := Min(Reply(s, Op.Write(filename, buffer)).code, size);
            0 <= n <= |buffer| && Reply(t, Op.Read(other, size)) == Answer(n, buffer[..n])
          else Reply(t, Op.Read(other, size)) == FAILED)
  {
    var t, i := After(s, Op.Write(filename, buffer)), Find(s, filename);
    assert FilesOf(t) == FilesOf(s)[i := Some(t[i].value.file)];
    LookupUpdate(FilesOf(s), i, Some(t[i].value.file), Text(other));
    assert Find(t, other) == Find(s, other);
  }

  /** A write stores everything that a file can hold iff the file has room for it. */
  lemma WriteIsComplete(s: Slot, buffer: seq<char>)
    requires SlotFits(s)
    ensures |Overwritten(s, buffer).file.data| == Min(|buffer|, MAX_SIZE) <==> Min(|buffer|, MAX_SIZE) <= Capacity(s.spare)
  {
  }

  // ---------- Permissions ----------

  /** After a chmod to `p`, by the number: the file is read iff the bit for 4 is set, and written and
      deleted iff the bit for 2 is; it is appended to iff that bit is set and the file is not full. */
  lemma ChmodDecides(s: Store, filename: seq<char>, p: bv16, buffer: seq<char>, size: nat)
    requires StoreOk(s) && Find(s, filename) < MAX_FILES
    ensures var (t, z) := (After(s, Op.Chmod(filename, p)), |s[Find(s, filename)].value.file.data|);
      && (Reply(t, Op.Read(filename, size)).code == -1 <==> p as int / 4 % 2 == 0)
      && (Reply(t, Op.Write(filename, buffer)).code == -1 <==> p as int / 2 % 2 == 0)
      && (Reply(t, Op.Delete(filename)).code == -1 <==> p as int / 2 % 2 == 0)
      && (Reply(t, Op.Append(filename, buffer)).code == -1 <==> p as int / 2 % 2 == 0 || z >= 16384)
  {
    var (t, i) := (After(s, Op.Chmod(filename, p)), Find(s, filename));
    assert FilesOf(t) == FilesOf(s)[i := Some(t[i].value.file)];
    LookupUpdate(FilesOf(s), i, Some(t[i].value.file), Text(filename));
    PermissionBits(p, 0);
    PermissionBits(p, 1);
  }

  /** A new file, if no slot before it has its name: it is empty, and may be read, written, appended to and
      deleted. */
  lemma NewFileIsOpen(s: Store, filename: seq<char>, buffer: seq<char>, size: nat)
    requires StoreOk(s) && FirstFree(FilesOf(s)) < MAX_FILES && NameIsFree(FilesOf(s), Text(filename))
    ensures var t := After(s, Op.Create(filename));
      && Reply(t, Op.Read(filename, size)) == Answer(0, [])
      && Reply(t, Op.Write(filename, buffer)) == Answer(Min(|buffer|, 16384), [])
      && Reply(t, Op.Append(filename, buffer)) == Answer(Min(|buffer|, 16384), [])
      && Reply(t, Op.Delete(filename)) == Answer(0, [])
  {
    var (t, r) := (After(s, Op.Create(filename)), FirstFree(FilesOf(s)));
    assert FilesOf(t) == FilesOf(s)[r := Some(t[r].value.file)];
    CreatedIsFound(FilesOf(s), t[r].value.file);
  }

  // ---------- Two runs that surprise ----------

  /** The one name in use refers to its slot. */
  lemma FindOnly(s: Store, filename: seq<char>, i: nat)
    requires |s| == MAX_FILES && i < MAX_FILES && s[i].Some? && s[i].value.file.name == Text(filename)
    requires forall k :: 0 <= k < i ==> s[k].None?
    ensures Find(s, filename) == i
  {
    LookupIs(FilesOf(s), Text(filename), i);
  }

  lemma FreeAt(s: Store, i: nat)
    requires |s| == MAX_FILES && i < MAX_FILES && s[i].None? && forall k :: 0 <= k < i ==> s[k].Some?
    ensures FirstFree(FilesOf(s)) == i
  {
    FirstFreeIs(FilesOf(s), i);
  }

  /** The store with one file. */
  function OneFile(filename: seq<char>, data: seq<char>, spare: int): Store {
    Formatted()[0 := Some(Slot(File(Text(filename), ALL_ALLOWED, data), spare))]
  }

  lemma OneFileWritten(filename: seq<char>, data: seq<char>, spare: int, buffer: seq<char>)
    requires SlotFits(Slot(File(Text(filename), ALL_ALLOWED, data), spare)) && |buffer| <= MAX_SIZE
    ensures var s := OneFile(filename, data, spare);
      var n := Min(|buffer|, Capacity(spare));
      && StoreOk(s) && Reply(s, Write(filename, buffer)) == Answer(n, [])
      && After(s, Write(filename, buffer)) == OneFile(filename, buffer[..n], spare + Max(0, Claimed(|data|) - Claimed(|buffer|)))
  {
    FindOnly(OneFile(filename, data, spare), filename, 0);
  }

  /** A file is created, filled, cut to one byte and filled again: it gets only one block of it. */
  function CutOps(filename: seq<char>, buffer: seq<char>): seq<Op>
    requires |buffer| > 0
  {
    [Create(filename), Write(filename, buffer), Write(filename, buffer[..1]), Write(filename, buffer)]
  }

  /** A run that one more operation follows. */
  lemma Then(front: seq<Op>, op: Op, s: Store, r: seq<Answer>)
    requires Run(front) == s && Replies(front) == r
    ensures Run(front + [op]) == After(s, op) && Replies(front + [op]) == r + [Reply(s, op)]
  {
    assert (front + [op])[..|front|] == front;
  }

  lemma FilledOnce(filename: seq<char>, buffer: seq<char>)
    requires |buffer| == MAX_SIZE
    ensures var ops := [Create(filename)] + [Write(filename, buffer)];
      Run(ops) == OneFile(filename, buffer, 0) && Replies(ops) == [Answer(0, []), Answer(MAX_SIZE, [])]
  {
    FreeAt(Formatted(), 0);
    Then([], Create(filename), Formatted(), []);
    assert [] + [Create(filename)] == [Create(filename)];
    Then([Create(filename)], Write(filename, buffer), OneFile(filename, [], 0), [Answer(0, [])]);
    OneFileWritten(filename, [], 0, buffer);
    assert buffer[..MAX_SIZE] == buffer;
  }

  lemma CutFile(filename: seq<char>, buffer: seq<char>)
    requires |buffer| == 16384
    ensures Replies(CutOps(filename, buffer)) == [Answer(0, []), Answer(16384, []), Answer(1, []), Answer(4096, [])]
    ensures Run(CutOps(filename, buffer)) == OneFile(filename, buffer[..4096], 3)
  {
    var (front, one) := ([Create(filename)] + [Write(filename, buffer)], buffer[..1]);
    var r := [Answer(0, []), Answer(MAX_SIZE, [])];
    FilledOnce(filename, buffer);
    OneFileWritten(filename, buffer, 0, one);
    assert one[..1] == one;
    Then(front, Write(filename, one), OneFile(filename, buffer, 0), r);
    OneFileWritten(filename, one, 3, buffer);
    Then(front + [Write(filename, one)], Write(filename, buffer), OneFile(filename, one, 3), r + [Answer(1, [])]);
    assert CutOps(filename, buffer) == front + [Write(filename, one)] + [Write(filename, buffer)];
  }

  /** The same name is created twice: there are two files, and the name refers to the first. */
  lemma TwiceCreated(filename: seq<char>)
    ensures var (ops, s) := ([Create(filename), Create(filename)], Run([Create(filename), Create(filename)]));
      && Replies(ops) == [Answer(0, []), Answer(1, [])]
      && s[1].Some? && s[1].value.file.name == Text(filename) && Find(s, filename) == 0
  {
    var ops := [Create(filename), Create(filename)];
    RunMore(ops, 0);
    RunMore(ops, 1);
    assert ops[..0] == [] && ops[..2] == ops;
    FreeAt(Formatted(), 0);
    FreeAt(Run(ops[..1]), 1);
    FindOnly(Run(ops), filename, 0);
  }
}
