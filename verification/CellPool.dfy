/** The pool of message cells: a free list and a doubly linked list of cells in use. */
module CellPools {

  import opened Basics

  /** A cell owns the bytes data .. data + CELL_SIZE - 1 of the message buffer. */
  class MemCell {
    const data: nat
    var next: MemCell?
    var prev: MemCell?
    ghost var inUse: bool

    constructor (data: nat, next: MemCell?)
      ensures this.data == data && this.next == next && this.prev == null && !inUse
    {
      this.data, this.next, this.prev, this.inUse := data, next, null, false;
    }
  }

  function HeadOf(cells: seq<MemCell>): MemCell? {
    if cells == [] then null else cells[0]
  }

  function At(cells: seq<MemCell>, i: int): MemCell? {
    if 0 <= i < |cells| then cells[i] else null
  }

  /** The next pointers run through the cells in order and end in null. */
  ghost predicate Chained(cells: seq<MemCell>)
    reads cells
  {
    forall i :: 0 <= i < |cells| ==> cells[i].next == At(cells, i + 1)
  }

  /** The prev pointers mirror the next pointers. */
  ghost predicate Mirrored(cells: seq<MemCell>)
    reads cells
  {
    forall i :: 0 <= i < |cells| ==> cells[i].prev == At(cells, i - 1)
  }

  ghost predicate Distinct(cells: seq<MemCell>) {
    forall i, j :: 0 <= i < j < |cells| ==> cells[i] != cells[j]
  }

  /** No two cells of a list share a byte of the buffer. */
  ghost predicate SlicesApart(cells: seq<MemCell>) {
    forall i, j :: 0 <= i < j < |cells| ==>
      cells[i].data + CELL_SIZE <= cells[j].data || cells[j].data + CELL_SIZE <= cells[i].data
  }

  /** The neighbours of the k-th cell point past it. */
  ghost predicate Bypassed(all: seq<MemCell>, k: nat)
    requires k < |all|
    reads all
  {
    && (forall i :: 0 <= i < |all| ==> all[i].inUse)
    && (k > 0 ==> all[k - 1].next == At(all, k + 1))
    && (forall i :: 0 <= i < |all| && i != k - 1 ==> all[i].next == At(all, i + 1))
    && (k + 1 < |all| ==> all[k + 1].prev == At(all, k - 1))
    && (forall i :: 0 <= i < |all| && i != k + 1 ==> all[i].prev == At(all, i - 1))
  }

  ghost predicate AllInUse(cells: seq<MemCell>)
    reads cells
  {
    forall i :: 0 <= i < |cells| ==> cells[i].inUse
  }

  /** Then the list without it is well formed. */
  lemma AfterUnlink(all: seq<MemCell>, k: nat, rest: seq<MemCell>)
    requires k < |all| && rest == all[..k] + all[k + 1..] && Bypassed(all, k)
    ensures Chained(rest) && Mirrored(rest) && AllInUse(rest)
    ensures HeadOf(rest) == if k == 0 then At(all, 1) else all[0]
  {
    forall i | 0 <= i < |rest|
      ensures rest[i].next == At(rest, i + 1) && rest[i].prev == At(rest, i - 1)
      ensures rest[i] == all[if i < k then i else i + 1]
    {
      var j := if i < k then i else i + 1;
      assert rest[i] == all[j];
      assert all[j].next == At(all, if j == k - 1 then k + 1 else j + 1);
      assert all[j].prev == At(all, if j == k + 1 then k - 1 else j - 1);
    }
  }

  lemma RemovalKeepsDistinct(all: seq<MemCell>, k: nat, rest: seq<MemCell>)
    requires k < |all| && rest == all[..k] + all[k + 1..] && Distinct(all)
    ensures Distinct(rest)
    ensures forall i :: 0 <= i < |rest| ==> rest[i] != all[k]
  {
  }

  // ----- whole runs -----

  /** The two lists as values, and what the two operations do to them. */
  datatype Lists<T> = Lists(unused: seq<T>, used: seq<T>)

  datatype PoolOp = Touch | Detouch(k: nat)

  function Do<T>(l: Lists<T>, op: PoolOp): Lists<T> {
    match op
    case Touch => if l.unused == [] then l else Lists(l.unused[1..], [l.unused[0]] + l.used)
    case Detouch(k) => if k >= |l.used| then l else Lists([l.used[k]] + l.unused, l.used[..k] + l.used[k + 1..])
  }

  function DoAll<T>(l: Lists<T>, ops: seq<PoolOp>): Lists<T> {
    if ops == [] then l else Do(DoAll(l, ops[..|ops| - 1]), ops[|ops| - 1])
  }

  /** No run of the two operations loses, doubles or invents a cell. */
  lemma {:induction false} RunKeepsCells<T>(l: Lists<T>, ops: seq<PoolOp>)
    ensures var l' := DoAll(l, ops); multiset(l'.unused) + multiset(l'.used) == multiset(l.unused) + multiset(l.used)
  {
    if ops != [] {
      RunKeepsCells(l, ops[..|ops| - 1]);
      StepKeepsCells(DoAll(l, ops[..|ops| - 1]), ops[|ops| - 1]);
    }
  }

  lemma StepKeepsCells<T>(l: Lists<T>, op: PoolOp)
    ensures multiset(Do(l, op).unused) + multiset(Do(l, op).used) == multiset(l.unused) + multiset(l.used)
  {
    if op == Touch && l.unused != [] {
      assert l.unused == [l.unused[0]] + l.unused[1..];
    } else if op.Detouch? && op.k < |l.used| {
      assert l.used == l.used[..op.k] + [l.used[op.k]] + l.used[op.k + 1..];
    }
  }

  class CellPool {
    var unusedHead: MemCell?
    var usedHead: MemCell?
    ghost var unused: seq<MemCell>
    ghost var used: seq<MemCell>

    ghost predicate ValidUnused()
      reads this`unusedHead, this`unused, unused
    {
      && unusedHead == HeadOf(unused) && Chained(unused) && Distinct(unused)
      && (unused != [] ==> unused[0].prev == null)
      && (forall i :: 0 <= i < |unused| ==> !unused[i].inUse)
    }

    ghost predicate ValidUsed()
      reads this`usedHead, this`used, used
    {
      && usedHead == HeadOf(used) && Chained(used) && Mirrored(used) && Distinct(used)
      && AllInUse(used)
    }

    ghost predicate Valid()
      reads this, unused, used
    {
      ValidUnused() && ValidUsed()
    }

    /** The pool part of create_backend: one cell per slice of the buffer. */
    constructor (queueSize: nat)
      ensures Valid() && used == [] && |unused| == queueSize && fresh(unused)
      ensures SlicesApart(unused)
      ensures forall c :: c in unused ==> c.data + CELL_SIZE <= CELL_SIZE * queueSize
    {
      unusedHead, usedHead, unused, used := null, null, [], [];
      new;
      for i := 0 to queueSize
        invariant Valid() && used == [] && |unused| == i && fresh(unused)
        invariant forall k :: 0 <= k < i ==> unused[k].data == CELL_SIZE * (i - 1 - k)
      {
        var tmp := new MemCell(CELL_SIZE * i, unusedHead);
        unusedHead := tmp;
        unused := [tmp] + unused;
      }
    }

    /** touch_mem_cell: moves the first free cell to the front of the used list. */
    method TouchMemCell() returns (result: MemCell?)
      requires Valid()
      modifies this, unused, used
      ensures Valid()
      ensures old(unused) == [] ==> result == null && unused == [] && used == old(used)
      ensures old(unused) != [] ==>
        result == old(unused)[0] && unused == old(unused)[1..] && used == [old(unused)[0]] + old(used)
    {
      hide Chained, Mirrored, Distinct, AllInUse;
      result := null;
      if unusedHead != null {
        result := unusedHead;
        TakeUnused();
        LinkUsed(result);
      }
    }

    /** Drops the head of the free list and clears the prev pointer of the next one. */
    method TakeUnused()
      requires Valid() && unused != []
      modifies this`unusedHead, this`unused, unused`prev
      ensures Valid() && unused == old(unused)[1..]
      ensures !old(unused)[0].inUse && old(unused)[0].prev == null
      ensures forall i :: 0 <= i < |unused| ==> unused[i] != old(unused)[0]
    {
      unusedHead := unusedHead.next;
      if unusedHead != null {
        unusedHead.prev := null;
      }
      unused := unused[1..];
    }

    /** Links a cell whose prev pointer is already null in front of the used list. */
    method LinkUsed(cell: MemCell)
      requires Valid() && !cell.inUse && cell.prev == null && forall i :: 0 <= i < |unused| ==> unused[i] != cell
      modifies this`usedHead, this`used, used`prev, cell`next, cell`inUse
      ensures Valid() && used == [cell] + old(used)
    {
      assert forall i :: 0 <= i < |unused| ==> unused[i] !in used;
      hide ValidUnused;
      LinkFirst(cell);
      UnusedKept();
    }

    method LinkFirst(cell: MemCell)
      requires ValidUsed() && !cell.inUse && cell.prev == null
      modifies this`usedHead, this`used, used`prev, cell`next, cell`inUse
      ensures ValidUsed() && used == [cell] + old(used)
    {
      if usedHead != null {
        usedHead.prev := cell;
      }
      cell.next := usedHead;
      usedHead := cell;
      cell.inUse := true;
      used := [cell] + used;
    }

    /** The free list does not notice changes of other cells. */
    twostate lemma UnusedKept()
      requires old(ValidUnused()) && unusedHead == old(unusedHead) && unused == old(unused)
      requires forall i :: 0 <= i < |unused| ==>
        unused[i].next == old(unused[i].next) && unused[i].prev == old(unused[i].prev)
          && unused[i].inUse == old(unused[i].inUse)
      ensures ValidUnused()
    {
    }

    /** detouch_mem_cell: unlinks a used cell at any position and puts it first on the free list. */
    method DetouchMemCell(cell: MemCell, ghost k: nat)
      requires Valid() && k < |used| && used[k] == cell
      modifies this, unused, used
      ensures Valid()
      ensures used == old(used)[..k] + old(used)[k + 1..] && unused == [cell] + old(unused)
    {
      hide Chained, Mirrored, Distinct;
      UnlinkUsed(cell, k);
      LinkUnused(cell);
    }

    /** Takes a cell out of the doubly linked used list. */
    method UnlinkUsed(cell: MemCell, ghost k: nat)
      requires ValidUsed() && k < |used| && used[k] == cell
      modifies this`usedHead, this`used, used`next, used`prev
      ensures ValidUsed() && used == old(used)[..k] + old(used)[k + 1..]
      ensures forall i :: 0 <= i < |used| ==> used[i] != cell
    {
      ghost var all := used;
      RemovalKeepsDistinct(all, k, all[..k] + all[k + 1..]);
      Bypass(cell, k);
      hide Distinct, Chained, Mirrored, AllInUse, Bypassed;
      used := all[..k] + all[k + 1..];
      AfterUnlink(all, k, used);
    }

    /** Makes the neighbours of a cell point past it. */
    method Bypass(cell: MemCell, ghost k: nat)
      requires ValidUsed() && k < |used| && used[k] == cell
      modifies this`usedHead, used`next, used`prev
      ensures Bypassed(used, k) && usedHead == if k == 0 then At(used, 1) else used[0]
    {
      if usedHead != cell {
        cell.prev.next := cell.next;
      } else {
        usedHead := cell.next;
      }
      if cell.next != null {
        cell.next.prev := cell.prev;
      }
    }

    method LinkUnused(cell: MemCell)
      requires ValidUnused() && cell.inUse
      modifies this`unusedHead, this`unused, unused`prev, cell
      ensures ValidUnused() && unused == [cell] + old(unused)
    {
      if unusedHead != null {
        unusedHead.prev := cell;
      }
      cell.next := unusedHead;
      cell.prev := null;
      unusedHead := cell;
      cell.inUse := false;
      unused := [cell] + unused;
    }

    ghost function Cells(): set<MemCell>
      reads this
    {
      set c | c in unused + used
    }

    /** Any run of the two operations; a cell to give back is named by its position. */
    method RunPool(ops: seq<PoolOp>, inUse: nat)
      requires Valid() && inUse == |used|
      modifies this, Cells()
      ensures Valid() && Lists(unused, used) == DoAll(old(Lists(unused, used)), ops)
    {
      hide ValidUnused, ValidUsed;
      var count := inUse;
      for i := 0 to |ops|
        invariant count == |used|
        invariant Valid() && Lists(unused, used) == DoAll(old(Lists(unused, used)), ops[..i])
        invariant forall k :: 0 <= k < |unused| ==> unused[k] in old(Cells())
        invariant forall k :: 0 <= k < |used| ==> used[k] in old(Cells())
      {
        assert ops[..i + 1][..i] == ops[..i];
        if ops[i] == Touch {
          var cell := TouchMemCell();
          count := if cell == null then count else count + 1;
        } else if ops[i].k < count {
          var cell := NthUsed(ops[i].k);
          DetouchMemCell(cell, ops[i].k);
          count := count - 1;
        }
      }
      assert ops[..|ops|] == ops;
    }

    /** Walks the used list. */
    method NthUsed(k: nat) returns (cell: MemCell)
      requires ValidUsed() && k < |used|
      ensures cell == used[k]
    {
      cell := usedHead;
      for i := 0 to k
        invariant cell == used[i]
      {
        cell := cell.next;
      }
    }
  }
}
