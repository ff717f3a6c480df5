/**
The two-level page tables of one user address space: `vm::Map::insert`, `vm::Map::clear` and `_new_table` of
src/mem/vm.cpp against a flat map from page numbers to frames.

A second-level table exists once its directory slot has been used; only the 768 slots below `KERNEL_VM_BASE` belong to
an address space. `insert` takes byte addresses, which may be negative, and writes only in [min, max).
*/
module PageTables {
  import opened Wrappers

  const PAGE_SIZE: int := 4096
  const ENTRIES: int := 1024         // PAGE_TABLE_LENGTH
  const SLOTS: int := 768            // PAGE_TABLE_LENGTH - KERNEL_VM_PAGE_TABLES
  const USER_PAGES: int := 786432    // KERNEL_VM_BASE in pages
  const KERNEL_VM_BASE: int := 0xC0000000

  type Table = seq<Option<int>>
  type Tables = map<int, Table>

  /** One `page::Page` of a chain: consecutive frames from a physical address. */
  datatype Run = Run(frame: int, consecutive: nat)

  predicate Shaped(t: Tables) {
    forall d :: d in t ==> 0 <= d < SLOTS && |t[d]| == ENTRIES
  }

  /** The walk the processor does: directory slot, then table entry. */
  function Entry(t: Tables, v: int): Option<int>
    requires Shaped(t) && 0 <= v < USER_PAGES
  {
    if v / ENTRIES in t then t[v / ENTRIES][v % ENTRIES] else None
  }

  /** `_new_table` */
  function NewTable(t: Tables, d: int): (r: Tables)
    requires Shaped(t) && 0 <= d < SLOTS
    ensures Shaped(r) && d in r
    ensures forall v :: 0 <= v < USER_PAGES ==> Entry(r, v) == Entry(t, v)
  {
    if d in t then t else t[d := seq(ENTRIES, _ => None)]
  }

  function Write(t: Tables, v: int, e: Option<int>): (r: Tables)
    requires Shaped(t) && 0 <= v < USER_PAGES && v / ENTRIES in t
    ensures Shaped(r)
    ensures forall u :: 0 <= u < USER_PAGES ==> Entry(r, u) == if u == v then e else Entry(t, u)
  {
    t[v / ENTRIES := t[v / ENTRIES][v % ENTRIES := e]]
  }

  function Set(t: Tables, v: int, frame: int): (r: Tables)
    requires Shaped(t) && 0 <= v < USER_PAGES
    ensures Shaped(r)
    ensures forall u :: 0 <= u < USER_PAGES ==> Entry(r, u) == if u == v then Some(frame) else Entry(t, u)
  {
    Write(NewTable(t, v / ENTRIES), v, Some(frame))
  }

  /** The frames of a chain of runs, in order. */
  function RunFrames(run: Run): (r: seq<int>)
    ensures |r| == run.consecutive
    ensures forall i :: 0 <= i < |r| ==> r[i] == run.frame + i * PAGE_SIZE
  {
    seq(run.consecutive, i requires 0 <= i < run.consecutive => run.frame + i * PAGE_SIZE)
  }

  function Frames(chain: seq<Run>): seq<int> {
    if chain == [] then [] else RunFrames(chain[0]) + Frames(chain[1..])
  }

  /** Writing frames page by page, from an address up. */
  function Inserted(t: Tables, addr: int, frames: seq<int>, min: int, max: int): (r: Tables)
    requires Shaped(t) && 0 <= addr && max <= KERNEL_VM_BASE
    ensures Shaped(r)
    decreases |frames|
  {
    if frames == [] || addr >= max then t
    else Inserted(if addr >= min then Set(t, addr / PAGE_SIZE, frames[0]) else t, addr + PAGE_SIZE, frames[1..], min, max)
  }

  function Insert(t: Tables, addr: int, frames: seq<int>, min: int, max: int): (r: Tables)
    requires Shaped(t) && max <= KERNEL_VM_BASE
    ensures Shaped(r)
  {
    if addr < 0 then t else Inserted(t, addr, frames, min, max)
  }

  // ---- Refinement of a flat map ------------------------------------------------------

  /** The i-th page of the chain has a place in the window. */
  predicate Lands(addr: int, i: int, count: nat, min: int, max: int) {
    0 <= i < count && min <= addr + i * PAGE_SIZE < max
  }

  /** What the flat map holds afterwards at page v. */
  function Flat(before: Option<int>, addr: int, frames: seq<int>, min: int, max: int, v: int): Option<int> {
    var i := v - addr / PAGE_SIZE;
    if Lands(addr, i, |frames|, min, max) then Some(frames[i]) else before
  }

  /** Page i of the chain goes to `addr` + i pages exactly when that is in [min, max); no other page changes, whichever
      second-level tables had to be created on the way. */
  lemma {:induction false} InsertedIsFlat(t: Tables, addr: int, frames: seq<int>, min: int, max: int, v: int)
    requires Shaped(t) && 0 <= addr && max <= KERNEL_VM_BASE && 0 <= v < USER_PAGES
    ensures Entry(Inserted(t, addr, frames, min, max), v) == Flat(Entry(t, v), addr, frames, min, max, v)
    decreases |frames|
  {
    if frames != [] && addr < max {
      var t' := if addr >= min then Set(t, addr / PAGE_SIZE, frames[0]) else t;
      assert Inserted(t, addr, frames, min, max) == Inserted(t', addr + PAGE_SIZE, frames[1..], min, max);
      hide Inserted, Set, Entry;
      InsertedIsFlat(t', addr + PAGE_SIZE, frames[1..], min, max, v);
      assert (addr + PAGE_SIZE) / PAGE_SIZE == addr / PAGE_SIZE + 1;
    }
  }

  /** At a negative address `insert` does nothing at all, even to the pages of the chain that lie inside the window. So
      it is the flat update on every table exactly when the address is not negative, or no page lands in the window. */
  lemma InsertIsFlatExactlyWhen(addr: int, frames: seq<int>, min: int, max: int)
    requires 0 <= min && max <= KERNEL_VM_BASE
    ensures (forall t, v :: Shaped(t) && 0 <= v < USER_PAGES ==>
               Entry(Insert(t, addr, frames, min, max), v) == Flat(Entry(t, v), addr, frames, min, max, v))
       <==> (addr >= 0 || forall i :: !Lands(addr, i, |frames|, min, max))
  {
    if addr >= 0 {
      forall t: Tables, v | Shaped(t) && 0 <= v < USER_PAGES
        ensures Entry(Insert(t, addr, frames, min, max), v) == Flat(Entry(t, v), addr, frames, min, max, v)
      {
        InsertedIsFlat(t, addr, frames, min, max, v);
      }
    } else if i :| Lands(addr, i, |frames|, min, max) {
      var t: Tables, v := map[], (addr + i * PAGE_SIZE) / PAGE_SIZE;
      assert v - addr / PAGE_SIZE == i && Shaped(t) && 0 <= v < USER_PAGES;
      assert Entry(Insert(t, addr, frames, min, max), v) == None;
      assert Flat(Entry(t, v), addr, frames, min, max, v) == Some(frames[i]);
    }
  }

  /** A chain in two pieces, at a negative address: the piece inside the window is lost. */
  lemma NegativeAddressLosesPages()
    ensures var t := Insert(map[], -PAGE_SIZE, [0x100000, 0x101000], 0, PAGE_SIZE);
            Entry(t, 0) == None && Flat(None, -PAGE_SIZE, [0x100000, 0x101000], 0, PAGE_SIZE, 0) == Some(0x101000)
  {
  }

  /** `clear` leaves this page alone, or finds the table to clear it in. */
  predicate HasPlace(t: Tables, v: int) {
    v < 0 || (v < USER_PAGES && v / ENTRIES in t)
  }

  /** `clear` of one page. Nothing is done below zero; otherwise the store goes through the table pointer without asking
      whether there is a table, or whether the slot is one of the 768. None is the store that has no table. */
  function Clear(t: Tables, v: int): (r: Option<Tables>)
    requires Shaped(t)
    ensures r.Some? <==> HasPlace(t, v)
    ensures r.Some? ==> Shaped(r.value) && r.value.Keys == t.Keys
    ensures r.Some? ==> forall u :: 0 <= u < USER_PAGES ==> Entry(r.value, u) == if u == v then None else Entry(t, u)
  {
    if v < 0 then Some(t) else if v < USER_PAGES && v / ENTRIES in t then Some(Write(t, v, None)) else None
  }
}
