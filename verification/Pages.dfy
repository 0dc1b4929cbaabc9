/** The page allocator of memory/memory.c: a circular next-fit search whose page table alone tells
    kfree how long an allocation is. */
module Pages {

  const NUM_PAGES: nat := 4096
  const PAGE_SIZE: nat := 4096

  /** The entries of the page table. */
  const FREE: int := 0
  const HEAD: int := 1
  const TAIL: int := 2

  /** sizeof(memory_block_t): four bytes, and one that is padded to four. */
  const HEADER: nat := 8

  const NULL: int := -1

  type Table = seq<int>

  // ---------- Circular runs of pages ----------

  /** `x` modulo NUM_PAGES, for less than two rounds. */
  function Wrap(x: nat): nat {
    if x < NUM_PAGES then x else x - NUM_PAGES
  }

  lemma WrapIsMod(x: nat)
    requires x < 2 * NUM_PAGES
    ensures x % NUM_PAGES == Wrap(x)
  {
  }

  /** How many pages page `i` lies behind page `r`, going round. */
  function Off(i: nat, r: nat): int {
    if i >= r then i - r else i - r + NUM_PAGES
  }

  /** Page `i` is among the `n` pages from page `r` on, going round. */
  predicate Covers(r: nat, n: nat, i: nat) {
    Off(i, r) < n
  }

  /** Seen from page `start` on, the page at position `j` is free. */
  predicate FreeAt(t: Table, start: nat, j: nat)
    requires |t| == NUM_PAGES && start < NUM_PAGES && j < NUM_PAGES
  {
    t[Wrap(start + j)] == FREE
  }

  /** Seen from page `start` on, the `n` pages from position `p` on exist and are free. */
  predicate FreeRun(t: Table, start: nat, n: nat, p: nat)
    requires |t| == NUM_PAGES && start < NUM_PAGES
  {
    0 < n && p + n <= NUM_PAGES && forall j :: p <= j < p + n ==> FreeAt(t, start, j)
  }

  /** The first such position that is not before `p`, or -1. */
  function FirstRun(t: Table, start: nat, n: nat, p: nat): (r: int)
    requires |t| == NUM_PAGES && start < NUM_PAGES
    ensures r == -1 || (p <= r && 0 < n && r + n <= NUM_PAGES)
    decreases NUM_PAGES - p
  {
    if p + n > NUM_PAGES then -1
    else if FreeRun(t, start, n, p) then p
    else if p < NUM_PAGES then FirstRun(t, start, n, p + 1) else -1
  }

  /** The search fails iff there is no run of `n` free pages; otherwise it finds the first one. */
  lemma {:induction false} FirstRunSpec(t: Table, start: nat, n: nat, p: nat)
    requires |t| == NUM_PAGES && start < NUM_PAGES
    ensures var r := FirstRun(t, start, n, p);
      && (r == -1 <==> forall q :: p <= q ==> !FreeRun(t, start, n, q))
      && (r != -1 ==> FreeRun(t, start, n, r) && forall q :: p <= q < r ==> !FreeRun(t, start, n, q))
    decreases NUM_PAGES - p
  {
    if p + n <= NUM_PAGES && !FreeRun(t, start, n, p) && p < NUM_PAGES {
      FirstRunSpec(t, start, n, p + 1);
    }
  }

  lemma FirstRunIs(t: Table, start: nat, n: nat, p: nat)
    requires |t| == NUM_PAGES && start < NUM_PAGES && FreeRun(t, start, n, p)
    requires forall q :: 0 <= q < p ==> !FreeRun(t, start, n, q)
    ensures FirstRun(t, start, n, 0) == p
  {
    FirstRunSpec(t, start, n, 0);
  }

  /** What allocate_pages knows after `i` pages: the last `count` of them are free, and no more, and
      there is no run of `n` free pages yet. */
  ghost predicate Scanned(t: Table, start: nat, n: nat, i: nat, count: nat)
    requires |t| == NUM_PAGES && start < NUM_PAGES
  {
    && count <= i <= NUM_PAGES && (n > 0 ==> count < n)
    && (forall j :: i - count <= j < i ==> FreeAt(t, start, j))
    && (count < i ==> !FreeAt(t, start, i - count - 1))
    && forall q :: 0 <= q && q + n <= i ==> !FreeRun(t, start, n, q)
  }

  lemma ScanFree(t: Table, start: nat, n: nat, i: nat, count: nat)
    requires |t| == NUM_PAGES && start < NUM_PAGES && Scanned(t, start, n, i, count)
    requires i < NUM_PAGES && FreeAt(t, start, i)
    ensures count + 1 != n ==> Scanned(t, start, n, i + 1, count + 1)
    ensures count + 1 == n ==> FirstRun(t, start, n, 0) == i + 1 - n
  {
    if count + 1 == n {
      FirstRunIs(t, start, n, i + 1 - n);
    } else {
      forall q | 0 <= q && q + n == i + 1 ensures !FreeRun(t, start, n, q) {
        assert n > 0 ==> q <= i - count - 1 < q + n;
      }
    }
  }

  lemma ScanUsed(t: Table, start: nat, n: nat, i: nat, count: nat)
    requires |t| == NUM_PAGES && start < NUM_PAGES && Scanned(t, start, n, i, count)
    requires i < NUM_PAGES && !FreeAt(t, start, i)
    ensures Scanned(t, start, n, i + 1, 0)
  {
  }

  lemma ScanEnd(t: Table, start: nat, n: nat, count: nat)
    requires |t| == NUM_PAGES && start < NUM_PAGES && Scanned(t, start, n, NUM_PAGES, count)
    ensures FirstRun(t, start, n, 0) == -1
  {
    FirstRunSpec(t, start, n, 0);
  }

  /** The page table with one more allocation. */
  function Marked(t: Table, r: nat, n: nat): (m: Table)
    requires |t| == NUM_PAGES
    ensures |m| == NUM_PAGES
    ensures forall i :: 0 <= i < NUM_PAGES ==> m[i] == if i == r then HEAD else if Covers(r, n, i) then TAIL else t[i]
  {
    seq(NUM_PAGES, i requires 0 <= i < NUM_PAGES => if i == r then HEAD else if Covers(r, n, i) then TAIL else t[i])
  }

  /** The first page from `i` on that is no tail, or NUM_PAGES. */
  function TailEnd(t: Table, i: nat): (e: nat)
    requires i <= |t|
    ensures i <= e <= |t| && (e < |t| ==> t[e] != TAIL) && forall k :: i <= k < e ==> t[k] == TAIL
    decreases |t| - i
  {
    if i == |t| || t[i] != TAIL then i else TailEnd(t, i + 1)
  }

  lemma TailEndIs(t: Table, i: nat, e: nat)
    requires i <= e <= |t| && (e < |t| ==> t[e] != TAIL) && forall k :: i <= k < e ==> t[k] == TAIL
    ensures TailEnd(t, i) == e
  {
  }

  /** The page table after kfree at page `r`. */
  function Cleared(t: Table, r: nat): (m: Table)
    requires r < |t|
    ensures |m| == |t|
    ensures forall i :: 0 <= i < |t| ==> m[i] == if t[r] == HEAD && r <= i < TailEnd(t, r + 1) then FREE else t[i]
  {
    if t[r] != HEAD then t else
      var e := TailEnd(t, r + 1);
      seq(|t|, i requires 0 <= i < |t| => if r <= i < e then FREE else t[i])
  }

  // ---------- What every run keeps ----------

  /** The state of the allocator.  `live` maps the first page of each allocation that has not been
      freed to its number of pages; the pages before `leaked` are tails of allocations that have. */
  datatype Heap = Heap(table: Table, cursor: nat, live: map<nat, nat>, leaked: nat)

  ghost predicate Owned(live: map<nat, nat>, i: nat) {
    exists r :: r in live && Covers(r, live[r], i)
  }

  /** The pages of a live allocation: they exist, none is leaked and no other allocation has them. */
  ghost predicate Apart(h: Heap, r: nat)
    requires r in h.live
  {
    && r < NUM_PAGES && 0 < h.live[r] <= NUM_PAGES
    && (forall i :: 0 <= i < h.leaked ==> !Covers(r, h.live[r], i))
    && forall q, i :: q in h.live && 0 <= i < NUM_PAGES && Covers(r, h.live[r], i) && Covers(q, h.live[q], i) ==> q == r
  }

  ghost predicate Inv(h: Heap) {
    && |h.table| == NUM_PAGES && h.cursor < NUM_PAGES && h.leaked <= NUM_PAGES
    && (forall r :: r in h.live ==> Apart(h, r))
    && forall i :: 0 <= i < NUM_PAGES ==> h.table[i] == EntryOf(h, i)
  }

  ghost function EntryOf(h: Heap, i: nat): int {
    if i in h.live then HEAD else if i < h.leaked || Owned(h.live, i) then TAIL else FREE
  }

  /** The page where allocate_pages puts `n` pages, or -1. */
  ghost function Place(h: Heap, n: nat): (r: int)
    requires |h.table| == NUM_PAGES && h.cursor < NUM_PAGES
    ensures r == -1 || (0 <= r < NUM_PAGES && 0 < n <= NUM_PAGES)
  {
    var p := FirstRun(h.table, h.cursor, n, 0);
    if p == -1 then -1 else Wrap(h.cursor + p)
  }

  /** allocate_pages */
  ghost function Alloc(h: Heap, n: nat): Heap
    requires |h.table| == NUM_PAGES && h.cursor < NUM_PAGES
  {
    var r := Place(h, n);
    if r == -1 then h else Heap(Marked(h.table, r, n), Wrap(r + n), h.live[r := n], h.leaked)
  }

  /** kfree at page `r` */
  ghost function Free(h: Heap, r: nat): Heap
    requires |h.table| == NUM_PAGES && r < NUM_PAGES
  {
    if r in h.live then
      var end := r + h.live[r];
      Heap(Cleared(h.table, r), h.cursor, h.live - {r}, if end > NUM_PAGES then end - NUM_PAGES else h.leaked)
    else h.(table := Cleared(h.table, r))
  }

  /** The pages that a search found are free. */
  lemma RunIsFree(t: Table, start: nat, n: nat, p: nat, i: nat)
    requires |t| == NUM_PAGES && start < NUM_PAGES && FreeRun(t, start, n, p)
    requires i < NUM_PAGES && Covers(Wrap(start + p), n, i)
    ensures t[i] == FREE
  {
    var j := p + Off(i, Wrap(start + p));
    assert FreeAt(t, start, j) && Wrap(start + j) == i;
  }

  /** Where that is: at the first of the `n` consecutive free pages that come first, going round from
      the cursor but not past it; and nowhere iff there are none. */
  lemma PlaceSpec(h: Heap, n: nat)
    requires |h.table| == NUM_PAGES && h.cursor < NUM_PAGES
    ensures Place(h, n) == -1 <==> forall q :: 0 <= q ==> !FreeRun(h.table, h.cursor, n, q)
    ensures Place(h, n) != -1 ==>
      exists p :: 0 <= p && FreeRun(h.table, h.cursor, n, p) && Place(h, n) == Wrap(h.cursor + p) &&
                  forall q :: 0 <= q < p ==> !FreeRun(h.table, h.cursor, n, q)
  {
    FirstRunSpec(h.table, h.cursor, n, 0);
  }

  /** The pages that an allocation takes belong to nobody. */
  lemma Taken(h: Heap, n: nat)
    requires Inv(h) && Place(h, n) != -1
    ensures forall i :: 0 <= i < NUM_PAGES && Covers(Place(h, n), n, i) ==>
        h.table[i] == FREE && i !in h.live && i >= h.leaked && !Owned(h.live, i)
  {
    var p := FirstRun(h.table, h.cursor, n, 0);
    FirstRunSpec(h.table, h.cursor, n, 0);
    forall i | 0 <= i < NUM_PAGES && Covers(Wrap(h.cursor + p), n, i) ensures h.table[i] == FREE {
      RunIsFree(h.table, h.cursor, n, p, i);
    }
    forall i | 0 <= i < NUM_PAGES && h.table[i] == FREE
      ensures i !in h.live && i >= h.leaked && !Owned(h.live, i)
    {
      assert h.table[i] == EntryOf(h, i);
    }
  }

  lemma AllocInv(h: Heap, n: nat)
    requires Inv(h)
    ensures Inv(Alloc(h, n))
  {
    var r := Place(h, n);
    if r != -1 {
      Taken(h, n);
      AllocApart(h, r, n);
      AllocEntries(h, r, n);
    }
  }

  lemma AllocApart(h: Heap, r: nat, n: nat)
    requires Inv(h) && r < NUM_PAGES && 0 < n <= NUM_PAGES
    requires forall i :: 0 <= i < NUM_PAGES && Covers(r, n, i) ==> i !in h.live && i >= h.leaked && !Owned(h.live, i)
    ensures var t := h.(live := h.live[r := n]); forall q :: q in t.live ==> Apart(t, q)
  {
    var t := h.(live := h.live[r := n]);
    assert Covers(r, n, r);
    forall q | q in t.live ensures Apart(t, q) {
      if q != r {
        assert Apart(h, q);
      }
    }
  }

  lemma AllocEntries(h: Heap, r: nat, n: nat)
    requires Inv(h) && r < NUM_PAGES && 0 < n <= NUM_PAGES
    requires forall i :: 0 <= i < NUM_PAGES && Covers(r, n, i) ==> i !in h.live && i >= h.leaked && !Owned(h.live, i)
    ensures var t := h.(live := h.live[r := n]);
      forall i :: 0 <= i < NUM_PAGES ==> Marked(h.table, r, n)[i] == EntryOf(t, i)
  {
    var t := h.(live := h.live[r := n]);
    assert Covers(r, n, r) && r !in h.live;
    forall i | 0 <= i < NUM_PAGES ensures Marked(h.table, r, n)[i] == EntryOf(t, i) {
      assert h.table[i] == EntryOf(h, i);
      if Owned(h.live, i) {
        var q :| q in h.live && Covers(q, h.live[q], i);
        assert q in t.live && t.live[q] == h.live[q];
      }
      if Covers(r, n, i) {
        assert r in t.live && t.live[r] == n;
      }
    }
  }

  /** Where kfree stops: at the end of the allocation, or at the last page. */
  lemma StopsAtEnd(h: Heap, r: nat)
    requires Inv(h) && r in h.live
    ensures var e := r + h.live[r]; TailEnd(h.table, r + 1) == if e < NUM_PAGES then e else NUM_PAGES
  {
    var n := h.live[r];
    assert Apart(h, r) && Covers(r, n, r);
    var e := if r + n < NUM_PAGES then r + n else NUM_PAGES;
    forall k | r + 1 <= k < e ensures h.table[k] == TAIL {
      assert Covers(r, n, k);
      OnlyHead(h, r, k);
    }
    if e < NUM_PAGES {
      BehindEnd(h, r);
    }
    TailEndIs(h.table, r + 1, e);
  }

  /** A page of an allocation other than its first is no head. */
  lemma OnlyHead(h: Heap, r: nat, k: nat)
    requires Inv(h) && r in h.live && k < NUM_PAGES && k != r && Covers(r, h.live[r], k)
    ensures k !in h.live && h.table[k] == TAIL
  {
    assert Apart(h, r) && (k in h.live ==> Covers(k, h.live[k], k));
    assert h.table[k] == EntryOf(h, k) && Owned(h.live, k);
  }

  /** The page behind an allocation is no tail: a tail follows a page of the same allocation. */
  lemma BehindEnd(h: Heap, r: nat)
    requires Inv(h) && r in h.live && r + h.live[r] < NUM_PAGES
    ensures h.table[r + h.live[r]] != TAIL
  {
    var n := h.live[r];
    var e := r + n;
    assert Apart(h, r) && Covers(r, n, r) && Covers(r, n, e - 1);
    assert h.table[e] == EntryOf(h, e);
    forall q | q in h.live && q != e ensures !Covers(q, h.live[q], e) {
      assert Covers(q, h.live[q], e) ==> Covers(q, h.live[q], e - 1);
    }
  }

  lemma FreeInv(h: Heap, r: nat)
    requires Inv(h) && r < NUM_PAGES
    ensures Inv(Free(h, r)) && h.leaked <= Free(h, r).leaked
  {
    if r in h.live {
      StopsAtEnd(h, r);
      assert Apart(h, r);
      assert r + h.live[r] > NUM_PAGES ==> Covers(r, h.live[r], 0);
      var t := Free(h, r);
      forall q | q in t.live ensures Apart(t, q) {
        FreeApart(h, r, q);
      }
      forall i | 0 <= i < NUM_PAGES ensures t.table[i] == EntryOf(t, i) {
        if Covers(r, h.live[r], i) {
          FreeEntry(h, r, i);
        } else {
          KeptEntry(h, r, i);
        }
      }
    } else {
      assert h.table[r] == EntryOf(h, r);
    }
  }

  lemma FreeApart(h: Heap, r: nat, q: nat)
    requires Inv(h) && r in h.live && q in h.live && q != r
    ensures Apart(Free(h, r), q)
  {
    var t := Free(h, r);
    assert Apart(h, r) && Apart(h, q);
    forall i | 0 <= i < t.leaked ensures !Covers(q, h.live[q], i) {
      if i >= h.leaked {
        assert Covers(r, h.live[r], i);
      }
    }
  }

  /** The pages of the freed allocation. */
  lemma FreeEntry(h: Heap, r: nat, i: nat)
    requires Inv(h) && r in h.live && i < NUM_PAGES && Covers(r, h.live[r], i)
    requires var e := r + h.live[r]; TailEnd(h.table, r + 1) == if e < NUM_PAGES then e else NUM_PAGES
    ensures Free(h, r).table[i] == EntryOf(Free(h, r), i)
  {
    assert Apart(h, r) && h.table[r] == EntryOf(h, r);
    if i != r {
      OnlyHead(h, r, i);
    }
    assert !Owned(h.live - {r}, i);
  }

  /** The other pages. */
  lemma KeptEntry(h: Heap, r: nat, i: nat)
    requires Inv(h) && r in h.live && i < NUM_PAGES && !Covers(r, h.live[r], i)
    requires var e := r + h.live[r]; TailEnd(h.table, r + 1) == if e < NUM_PAGES then e else NUM_PAGES
    ensures Free(h, r).table[i] == EntryOf(Free(h, r), i)
  {
    assert Apart(h, r) && h.table[i] == EntryOf(h, i);
    assert r + h.live[r] > NUM_PAGES ==> Covers(r, h.live[r], 0);
    if Owned(h.live, i) {
      var q :| q in h.live && Covers(q, h.live[q], i);
      assert q in h.live - {r} && (h.live - {r})[q] == h.live[q];
    }
  }

  // ---------- Runs ----------

  datatype Op = Allocate(n: nat) | Release(r: nat)

  /** A run of allocations, and of calls of kfree for any page. */
  ghost predicate IsRun(run: seq<Heap>, ops: seq<Op>) {
    && |run| == |ops| + 1 && run[0] == Empty()
    && forall k :: 0 <= k < |ops| ==> Next(run[k], ops[k], run[k + 1])
  }

  ghost predicate Next(h: Heap, op: Op, t: Heap) {
    && |h.table| == NUM_PAGES && h.cursor < NUM_PAGES
    && match op
       case Allocate(n) => t == Alloc(h, n)
       case Release(r) => r < NUM_PAGES && t == Free(h, r)
  }

  /** memory_init */
  function Empty(): Heap {
    Heap(seq(NUM_PAGES, _ => FREE), 0, map[], 0)
  }

  lemma EmptyInv()
    ensures Inv(Empty())
  {
    assert forall i :: !Owned(map[], i);
  }

  /** In every run, live allocations have their pages to themselves and the page table says so. */
  lemma {:induction false} RunInv(run: seq<Heap>, ops: seq<Op>, k: nat)
    requires IsRun(run, ops) && k < |run|
    ensures Inv(run[k])
    ensures k > 0 ==> run[k - 1].leaked <= run[k].leaked
  {
    if k == 0 {
      EmptyInv();
    } else {
      RunInv(run, ops, k - 1);
      assert Next(run[k - 1], ops[k - 1], run[k]);
      match ops[k - 1]
      case Allocate(n) => AllocInv(run[k - 1], n);
      case Release(r) => FreeInv(run[k - 1], r);
    }
  }

  /** In every run a tail behind another page follows a page that is not free. */
  lemma TailFollows(run: seq<Heap>, ops: seq<Op>, k: nat, i: nat)
    requires IsRun(run, ops) && k < |run| && 0 < i < NUM_PAGES
    ensures |run[k].table| == NUM_PAGES && (run[k].table[i] == TAIL ==> run[k].table[i - 1] != FREE)
  {
    RunInv(run, ops, k);
    var h := run[k];
    assert h.table[i] == EntryOf(h, i) && h.table[i - 1] == EntryOf(h, i - 1);
    if h.table[i] == TAIL && i >= h.leaked {
      var q :| q in h.live && Covers(q, h.live[q], i);
      assert Apart(h, q) && Covers(q, h.live[q], i - 1);
    }
  }

  /** A page that a free has left behind as a tail stays one for ever. */
  lemma {:induction false} LeakedForEver(run: seq<Heap>, ops: seq<Op>, a: nat, b: nat, i: nat)
    requires IsRun(run, ops) && a <= b < |run| && i < run[a].leaked
    ensures |run[b].table| == NUM_PAGES && i < NUM_PAGES
    ensures i < run[b].leaked && run[b].table[i] == TAIL && !Owned(run[b].live, i)
    decreases b
  {
    RunInv(run, ops, b);
    if a < b {
      LeakedForEver(run, ops, a, b - 1, i);
    }
    var h := run[b];
    assert h.table[i] == EntryOf(h, i);
    if i in h.live {
      assert Apart(h, i) && Covers(i, h.live[i], i);
    }
    forall r | r in h.live ensures !Covers(r, h.live[r], i) {
      assert Apart(h, r);
    }
  }

  /** kfree frees exactly the pages of the allocation iff the allocation does not go past the last
      page. */
  lemma FreeExact(h: Heap, r: nat)
    requires Inv(h) && r in h.live
    ensures forall i :: 0 <= i < NUM_PAGES ==>
      Free(h, r).table[i] == if r <= i && Covers(r, h.live[r], i) then FREE else h.table[i]
    ensures (forall i :: 0 <= i < NUM_PAGES ==>
      Free(h, r).table[i] == if Covers(r, h.live[r], i) then FREE else h.table[i]) <==> r + h.live[r] <= NUM_PAGES
  {
    StopsAtEnd(h, r);
    assert Apart(h, r) && h.table[r] == EntryOf(h, r);
    if r + h.live[r] > NUM_PAGES {
      assert Covers(r, h.live[r], 0);
      OnlyHead(h, r, 0);
    }
  }

  /** What kfree undoes: an allocation and a free restore the page table iff the allocation does not
      go past the last page. */
  lemma AllocThenFree(h: Heap, n: nat)
    requires Inv(h) && Place(h, n) != -1
    ensures var r := Place(h, n);
      Free(Alloc(h, n), r).table == h.table <==> r + n <= NUM_PAGES
  {
    var r := Place(h, n);
    Taken(h, n);
    AllocInv(h, n);
    FreeExact(Alloc(h, n), r);
    MarkedThenCleared(h.table, r, n, Free(Alloc(h, n), r).table);
  }

  lemma MarkedThenCleared(t: Table, r: nat, n: nat, c: Table)
    requires |t| == NUM_PAGES && |c| == NUM_PAGES && r < NUM_PAGES && 0 < n <= NUM_PAGES
    requires forall i :: 0 <= i < NUM_PAGES && Covers(r, n, i) ==> t[i] == FREE
    requires forall i :: 0 <= i < NUM_PAGES ==> c[i] == if r <= i && Covers(r, n, i) then FREE else Marked(t, r, n)[i]
    ensures c == t <==> r + n <= NUM_PAGES
  {
    if r + n > NUM_PAGES {
      assert Covers(r, n, 0) && c[0] == TAIL;
    }
  }

  /** Such allocations happen: four pages from the last but one on.  Their free leaves two tails. */
  lemma LeakHappens()
    ensures exists run: seq<Heap>, ops: seq<Op> :: IsRun(run, ops) && run[|run| - 1].live == map[] && run[|run| - 1].leaked == 2
  {
    var h0, n := Empty(), NUM_PAGES - 2;
    EmptyInv();
    assert forall j :: 0 <= j < n ==> FreeAt(h0.table, 0, j);
    FirstRunIs(h0.table, 0, n, 0);
    var h1 := Alloc(h0, n);
    AllocInv(h0, n);
    AllocThenFree(h0, n);
    var h2 := Free(h1, 0);
    FirstRunIs(h2.table, n, 4, 0);
    var h3 := Alloc(h2, 4);
    var h4 := Free(h3, n);
    var run, ops := [h0, h1, h2, h3, h4], [Allocate(n), Release(0), Allocate(4), Release(n)];
    assert h4.live == map[] && h4.leaked == 2;
    assert IsRun(run, ops) && run[|run| - 1] == h4;
  }

  // ---------- Next fit ----------

  /** Any calls of kfree, one after the other. */
  ghost function FreeAll(h: Heap, rs: seq<nat>): (t: Heap)
    requires Inv(h) && forall k :: 0 <= k < |rs| ==> rs[k] < NUM_PAGES
    ensures Inv(t) && t.cursor == h.cursor
    decreases |rs|
  {
    if rs == [] then h else
      FreeInv(h, rs[0]);
      FreeAll(Free(h, rs[0]), rs[1..])
  }

  /** An allocation and then these calls of kfree. */
  ghost function AllocFree(h: Heap, n: nat, rs: seq<nat>): (t: Heap)
    requires Inv(h) && forall k :: 0 <= k < |rs| ==> rs[k] < NUM_PAGES
    ensures Inv(t) && t.cursor == Alloc(h, n).cursor
  {
    AllocInv(h, n);
    FreeAll(Alloc(h, n), rs)
  }

  /** Seen from behind the `n` pages from `r` on, the page at position `j`. */
  lemma Behind(r: nat, n: nat, j: nat)
    requires r < NUM_PAGES && n <= NUM_PAGES && j < NUM_PAGES
    ensures var i := Wrap(Wrap(r + n) + j); 0 <= i < NUM_PAGES && (i - r - n) % NUM_PAGES == j
  {
  }

  /** Seen from there, these pages are the last ones. */
  lemma BehindIsApart(r: nat, n: nat, p: nat, m: nat, i: nat)
    requires r < NUM_PAGES && 0 < n <= NUM_PAGES && 0 < m && p + m <= NUM_PAGES - n && i < NUM_PAGES
    ensures !(Covers(r, n, i) && Covers(Wrap(Wrap(r + n) + p), m, i))
  {
  }

  /** Next fit: after an allocation and any frees, a further allocation for which `m` pages behind the
      first one are free takes none of the pages of the first one, even if these are free again. */
  lemma NextFit(h: Heap, n: nat, rs: seq<nat>, m: nat, q: nat)
    requires Inv(h) && Place(h, n) != -1 && forall k :: 0 <= k < |rs| ==> rs[k] < NUM_PAGES
    requires 0 < m && q + m <= NUM_PAGES - n
    requires var (r, t) := (Place(h, n), AllocFree(h, n, rs));
      forall i :: 0 <= i < NUM_PAGES && q <= (i - r - n) % NUM_PAGES < q + m ==> t.table[i] == FREE
    ensures var (r, t) := (Place(h, n), AllocFree(h, n, rs));
      && Place(t, m) != -1
      && forall i :: 0 <= i < NUM_PAGES ==> !(Covers(r, n, i) && Covers(Place(t, m), m, i))
  {
    var (r, t) := (Place(h, n), AllocFree(h, n, rs));
    forall j | q <= j < q + m ensures FreeAt(t.table, t.cursor, j) {
      Behind(r, n, j);
    }
    BehindFits(t, r, n, m, q);
  }

  lemma BehindFits(t: Heap, r: nat, n: nat, m: nat, q: nat)
    requires |t.table| == NUM_PAGES && r < NUM_PAGES && 0 < n <= NUM_PAGES && t.cursor == Wrap(r + n)
    requires q + m <= NUM_PAGES - n && FreeRun(t.table, t.cursor, m, q)
    ensures Place(t, m) != -1
    ensures forall i :: 0 <= i < NUM_PAGES ==> !(Covers(r, n, i) && Covers(Place(t, m), m, i))
  {
    var p := FirstRun(t.table, t.cursor, m, 0);
    FirstRunSpec(t.table, t.cursor, m, 0);
    forall i | 0 <= i < NUM_PAGES ensures !(Covers(r, n, i) && Covers(Place(t, m), m, i)) {
      BehindIsApart(r, n, p, m, i);
    }
  }

  lemma MarkedNumbers(t: Table, r: nat, n: nat)
    requires |t| == NUM_PAGES && r < NUM_PAGES
    ensures forall i :: 0 <= i < 4096 ==>
      Marked(t, r, n)[i] == if i == r then 1 else if r < i < r + n || i + 4096 < r + n then 2 else t[i]
  {
  }

  lemma AllocCursor(h: Heap, n: nat)
    requires |h.table| == NUM_PAGES && h.cursor < NUM_PAGES && Place(h, n) != -1
    ensures Alloc(h, n).cursor == (Place(h, n) + n) % 4096
  {
    WrapIsMod(Place(h, n) + n);
  }

  /** The page table and the cursor after an allocation, by the numbers. */
  lemma AllocNumbers(h: Heap, n: nat)
    requires |h.table| == NUM_PAGES && h.cursor < NUM_PAGES && Place(h, n) != -1
    ensures var (r, t) := (Place(h, n), Alloc(h, n));
      && t.cursor == (r + n) % 4096 && |t.table| == 4096
      && forall i :: 0 <= i < 4096 ==>
           t.table[i] == if i == r then 1 else if r < i < r + n || i + 4096 < r + n then 2 else h.table[i]
  {
    AllocCursor(h, n);
    MarkedNumbers(h.table, Place(h, n), n);
  }

  // ---------- Bytes ----------

  /** The pages that kmalloc asks for. */
  function PagesFor(size: nat): nat {
    (size + HEADER + PAGE_SIZE - 1) / PAGE_SIZE
  }

  /** They are enough, and one less is not. */
  lemma PagesForFits(size: nat)
    ensures (PagesFor(size) - 1) * 4096 < size + 8 <= PagesFor(size) * 4096
  {
  }

  /** What kmalloc returns for an allocation at page `r`. */
  function PointerTo(r: int): int {
    if r == -1 then NULL else r * PAGE_SIZE + HEADER
  }

  /** kfree finds the page again, and the bytes that were asked for lie in the pages behind it. */
  lemma PointerFits(r: nat, size: nat)
    ensures PointerTo(r) != NULL && (PointerTo(r) - HEADER) / PAGE_SIZE == r
    ensures PointerTo(r) == r * 4096 + 8 && PointerTo(r) + size <= (r + PagesFor(size)) * 4096
  {
    PagesForFits(size);
  }

  /** The bytes behind the pointer that kmalloc returns lie in the kernel's memory iff the allocation
      does not go past the last page. */
  lemma BytesInside(r: nat, size: nat)
    requires r < NUM_PAGES
    ensures PointerTo(r) + size <= 16 * 1024 * 1024 <==> r + PagesFor(size) <= NUM_PAGES
  {
    PagesForFits(size);
  }

  /** The bytes of two such allocations do not overlap. */
  lemma BytesApart(h: Heap, a: nat, b: nat)
    requires Inv(h) && a in h.live && b in h.live && a < b
    ensures (a + h.live[a]) * PAGE_SIZE <= b * PAGE_SIZE
  {
    assert Apart(h, a) && Apart(h, b) && Covers(b, h.live[b], b);
    assert !Covers(a, h.live[a], b);
  }

  // ---------- In place ----------

  class PageAllocator {
    const pageTable: array<int>
    var lastPageIndex: nat
    ghost var live: map<nat, nat>
    ghost var leaked: nat

    ghost function H(): Heap
      reads this, pageTable
    {
      Heap(pageTable[..], lastPageIndex, live, leaked)
    }

    ghost predicate Valid()
      reads this, pageTable
    {
      Inv(H())
    }

    /** memory_init */
    constructor ()
      ensures Valid() && H() == Empty() && fresh(pageTable)
      ensures lastPageIndex == 0 && pageTable.Length == 4096 && forall i :: 0 <= i < 4096 ==> pageTable[i] == 0
    {
      pageTable := new int[NUM_PAGES](_ => FREE);
      lastPageIndex := 0;
      live, leaked := map[], 0;
      new;
      assert pageTable[..] == Empty().table;
      EmptyInv();
    }

    /** The inner loop of allocate_pages: one head and `n` - 1 tails. */
    method Mark(r: nat, n: nat)
      requires pageTable.Length == NUM_PAGES && r < NUM_PAGES && 0 < n <= NUM_PAGES
      modifies pageTable
      ensures pageTable[..] == Marked(old(pageTable[..]), r, n)
    {
      pageTable[r] := HEAD;
      var j := 1;
      while j < n
        invariant 1 <= j <= n
        invariant forall i :: 0 <= i < NUM_PAGES ==>
          pageTable[i] == if i == r then HEAD else if Covers(r, j, i) then TAIL else old(pageTable[i])
      {
        var k := (r + j) % NUM_PAGES;
        WrapIsMod(r + j);
        pageTable[k] := TAIL;
        j := j + 1;
      }
    }

    /** The outer loop of allocate_pages, up to its success: the first page of the first run of `n`
        free pages from `start` on, or -1. */
    method Search(start: nat, n: nat) returns (r: int)
      requires pageTable.Length == NUM_PAGES && start == lastPageIndex < NUM_PAGES
      ensures r == Place(H(), n)
    {
      var count, foundStart := 0, -1;
      ghost var t := pageTable[..];
      for i := 0 to NUM_PAGES
        invariant Scanned(t, start, n, i, count)
        invariant foundStart == if count == 0 then -1 else Wrap(start + i - count)
      {
        var index := (start + i) % NUM_PAGES;
        WrapIsMod(start + i);
        if pageTable[index] == FREE {
          ScanFree(t, start, n, i, count);
          if foundStart == -1 {
            foundStart := index;
          }
          count := count + 1;
          if count == n {
            return foundStart;
          }
        } else {
          ScanUsed(t, start, n, i, count);
          count := 0;
          foundStart := -1;
        }
      }
      ScanEnd(t, start, n, count);
      return -1;
    }

    /** What allocate_pages does when its search succeeds. */
    method Take(r: nat, n: nat)
      requires pageTable.Length == NUM_PAGES && r < NUM_PAGES && 0 < n <= NUM_PAGES
      modifies this, pageTable
      ensures H() == Heap(Marked(old(pageTable[..]), r, n), Wrap(r + n), old(live)[r := n], old(leaked))
    {
      Mark(r, n);
      WrapIsMod(r + n);
      lastPageIndex := (r + n) % NUM_PAGES;
      live := live[r := n];
    }

    method AllocateCode(n: nat) returns (r: int)
      requires pageTable.Length == NUM_PAGES && lastPageIndex < NUM_PAGES
      modifies this, pageTable
      ensures r == Place(old(H()), n) && H() == Alloc(old(H()), n)
    {
      r := Search(lastPageIndex, n);
      if r != -1 {
        Take(r, n);
      }
    }

    /** allocate_pages: the first run of `n` free pages from the cursor on, or -1 and no change. */
    method AllocatePages(n: nat) returns (r: int)
      requires Valid()
      modifies this, pageTable
      ensures Valid() && r == Place(old(H()), n) && H() == Alloc(old(H()), n)
      ensures if r == -1 then H() == old(H()) else 0 <= r < NUM_PAGES && live == old(live)[r := n]
      ensures r != -1 ==> lastPageIndex == (r + n) % 4096
      ensures r != -1 ==> pageTable.Length == 4096 && forall i :: 0 <= i < 4096 ==>
        pageTable[i] == if i == r then 1 else if r < i < r + n || i + 4096 < r + n then 2 else old(pageTable[i])
    {
      AllocInv(H(), n);
      if Place(H(), n) != -1 {
        AllocNumbers(H(), n);
      }
      r := AllocateCode(n);
    }

    /** kmalloc, for its number of pages. */
    method AllocateFor(numPages: nat) returns (pointer: int)
      requires Valid()
      modifies this, pageTable
      ensures Valid() && H() == Alloc(old(H()), numPages)
      ensures pointer == PointerTo(Place(old(H()), numPages))
      ensures pointer == NULL ==> H() == old(H())
    {
      var page := AllocatePages(numPages);
      if page == -1 {
        return NULL;
      }
      pointer := page * PAGE_SIZE + HEADER;
    }

    /** kmalloc: a pointer behind the header of a new allocation, as an offset, or NULL. */
    method KMalloc(size: nat) returns (pointer: int)
      requires Valid()
      modifies this, pageTable
      ensures Valid() && H() == Alloc(old(H()), PagesFor(size))
      ensures pointer == PointerTo(Place(old(H()), PagesFor(size)))
      ensures pointer == NULL ==> H() == old(H())
    {
      var totalSize := size + HEADER;
      var numPages := (totalSize + PAGE_SIZE - 1) / PAGE_SIZE;
      assert numPages == PagesFor(size);
      pointer := AllocateFor(numPages);
    }

    /** The loop of kfree over the tails. */
    method ClearTails(start: nat)
      requires pageTable.Length == NUM_PAGES && start <= NUM_PAGES
      modifies pageTable
      ensures var e := TailEnd(old(pageTable[..]), start);
        forall k :: 0 <= k < NUM_PAGES ==> pageTable[k] == if start <= k < e then FREE else old(pageTable[k])
    {
      var i := start;
      while i < NUM_PAGES && pageTable[i] == TAIL
        invariant start <= i <= NUM_PAGES
        invariant forall k :: start <= k < i ==> old(pageTable[k]) == TAIL
        invariant forall k :: 0 <= k < NUM_PAGES ==> pageTable[k] == if start <= k < i then FREE else old(pageTable[k])
      {
        pageTable[i] := FREE;
        i := i + 1;
      }
      TailEndIs(old(pageTable[..]), start, i);
    }

    /** What kfree does to the page table. */
    method FreePage(startPage: nat)
      requires pageTable.Length == NUM_PAGES && startPage < NUM_PAGES
      modifies pageTable
      ensures pageTable[..] == Cleared(old(pageTable[..]), startPage)
    {
      ghost var t := pageTable[..];
      if pageTable[startPage] == HEAD {
        pageTable[startPage] := FREE;
        ghost var u := pageTable[..];
        ClearTails(startPage + 1);
        ghost var e := TailEnd(u, startPage + 1);
        assert forall k :: startPage + 1 <= k < e ==> t[k] == u[k];
        TailEndIs(t, startPage + 1, e);
      }
      assert pageTable[..] == Cleared(t, startPage);
    }

    /** kfree, for NULL or a pointer behind the header of any page.  Only a first page is freed, with
        the tails behind it. */
    method KFree(pointer: int)
      requires Valid() && (pointer == NULL || HEADER <= pointer < HEADER + NUM_PAGES * PAGE_SIZE)
      modifies this, pageTable
      ensures Valid()
      ensures pointer == NULL ==> H() == old(H())
      ensures pointer != NULL ==> H() == Free(old(H()), (pointer - HEADER) / PAGE_SIZE)
      ensures lastPageIndex == old(lastPageIndex)
      ensures pointer != NULL && old(pageTable[(pointer - 8) / 4096]) != 1 ==> pageTable[..] == old(pageTable[..])
    {
      if pointer == NULL {
        return;
      }
      var startPage := (pointer - HEADER) / PAGE_SIZE;
      ghost var h := H();
      FreeInv(h, startPage);
      FreePage(startPage);
      live, leaked := Free(h, startPage).live, Free(h, startPage).leaked;
    }
  }
}
