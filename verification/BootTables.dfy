/**
The page directory and kernel page tables that src/main/lomain.cpp lays out at boot, and the two ways the rest of the
kernel addresses their entries: the processor's two-level walk, and the flat array that src/mem/page.cpp indexes.
*/
module BootTables {

  const PAGE_SIZE: int := 0x1000
  const PAGE_DIR_SIZE: int := 0x40_0000
  const PAGE_TABLE_LENGTH: int := 0x400
  const KERNEL_VM_BASE: int := 0xC000_0000
  const TOTAL_VM_SIZE: int := 0x1_0000_0000
  const KERNEL_SLOT: int := 0x300            // KERNEL_VM_BASE / PAGE_DIR_SIZE
  const KERNEL_VM_PAGE_TABLES: int := 0x100
  const PRESENT: int := 0x01
  const RW: int := 0x02
  const LARGE: int := 0x80                   // PAGE_TABLE_SIZE

  /** The part of `map_low` the loop reads; physical addresses. The directory is at `vmStart`, the tables follow it. */
  datatype Layout = Layout(roStart: int, roEnd: int, rwStart: int, vmStart: int, vmEnd: int)

  predicate LayoutOk(low: Layout) {
    && 0 <= low.vmStart && low.vmStart % PAGE_SIZE == 0
    && low.vmEnd == low.vmStart + PAGE_SIZE + KERNEL_VM_PAGE_TABLES * PAGE_SIZE
    && low.vmEnd < TOTAL_VM_SIZE - KERNEL_VM_BASE
  }

  /** `address | PAGE_TABLE_RW | PAGE_TABLE_PRESENT`: the two lowest bits are set, whatever they were. */
  function Flagged(address: int): int { address / 4 * 4 + RW + PRESENT }

  /** The entry for a page of physical memory; flags fill the low bits of an aligned address. */
  function EntryFor(low: Layout, addr: int): int {
    if low.roStart <= addr < low.roEnd + PAGE_SIZE then addr + PRESENT
    else if low.rwStart <= addr < low.vmEnd + PAGE_SIZE then addr + RW + PRESENT
    else 0
  }

  /** The nested loop of `low_kernel_main`, with its moving `table` and `entry` pointers. */
  method BuildTables(low: Layout) returns (dir: array<int>, tables: array<int>)
    ensures fresh(dir) && fresh(tables)
    ensures dir.Length == PAGE_TABLE_LENGTH && tables.Length == KERNEL_VM_PAGE_TABLES * PAGE_TABLE_LENGTH
    ensures dir[0] == RW + PRESENT + LARGE
    ensures forall i :: 1 <= i < KERNEL_SLOT ==> dir[i] == RW + LARGE
    ensures forall i :: KERNEL_SLOT <= i < PAGE_TABLE_LENGTH ==>
              dir[i] == Flagged(low.vmStart + PAGE_SIZE + (i - KERNEL_SLOT) * PAGE_SIZE)
    ensures forall e :: 0 <= e < tables.Length ==> tables[e] == EntryFor(low, e * PAGE_SIZE)
  {
    dir := new int[PAGE_TABLE_LENGTH];
    tables := new int[KERNEL_VM_PAGE_TABLES * PAGE_TABLE_LENGTH];
    dir[0] := RW + PRESENT + LARGE;
    var table := low.vmStart + PAGE_SIZE;
    var entry := 0;
    var i := 1;
    while i < PAGE_TABLE_LENGTH
      invariant 1 <= i <= PAGE_TABLE_LENGTH
      invariant table == low.vmStart + PAGE_SIZE + (if i < KERNEL_SLOT then 0 else i - KERNEL_SLOT) * PAGE_SIZE
      invariant entry == (if i < KERNEL_SLOT then 0 else i - KERNEL_SLOT) * PAGE_TABLE_LENGTH
      invariant dir[0] == RW + PRESENT + LARGE
      invariant forall k :: 1 <= k < KERNEL_SLOT && k < i ==> dir[k] == RW + LARGE
      invariant forall k :: KERNEL_SLOT <= k < i ==>
                  dir[k] == Flagged(low.vmStart + PAGE_SIZE + (k - KERNEL_SLOT) * PAGE_SIZE)
      invariant forall e :: 0 <= e < entry ==> tables[e] == EntryFor(low, e * PAGE_SIZE)
    {
      if i >= KERNEL_VM_BASE / PAGE_DIR_SIZE {
        dir[i] := Flagged(table);
        entry := FillTable(low, i, tables, entry);
        table := table + PAGE_SIZE;
      } else {
        dir[i] := RW + LARGE;
      }
      i := i + 1;
    }
  }

  /** The inner loop: one page table. */
  method FillTable(low: Layout, i: int, tables: array<int>, entry0: nat) returns (entry: nat)
    requires KERNEL_SLOT <= i < PAGE_TABLE_LENGTH && entry0 == (i - KERNEL_SLOT) * PAGE_TABLE_LENGTH
    requires tables.Length == KERNEL_VM_PAGE_TABLES * PAGE_TABLE_LENGTH
    modifies tables
    ensures entry == entry0 + PAGE_TABLE_LENGTH
    ensures forall e :: 0 <= e < entry0 ==> tables[e] == old(tables[e])
    ensures forall e :: entry0 <= e < entry ==> tables[e] == EntryFor(low, e * PAGE_SIZE)
  {
    entry := entry0;
    var j := 0;
    while j < PAGE_TABLE_LENGTH
      invariant 0 <= j <= PAGE_TABLE_LENGTH && entry == entry0 + j
      invariant forall e :: 0 <= e < entry0 ==> tables[e] == old(tables[e])
      invariant forall e :: entry0 <= e < entry ==> tables[e] == EntryFor(low, e * PAGE_SIZE)
    {
      var addr := i * PAGE_DIR_SIZE + j * PAGE_SIZE - KERNEL_VM_BASE;
      assert addr == entry * PAGE_SIZE;
      if addr >= low.roStart && addr < low.roEnd + PAGE_SIZE {
        tables[entry] := addr + PRESENT;
      } else if addr >= low.rwStart && addr < low.vmEnd + PAGE_SIZE {
        tables[entry] := addr + RW + PRESENT;
      } else {
        tables[entry] := 0;
      }
      entry := entry + 1;
      j := j + 1;
    }
  }

  // ---- Two ways to an entry ---------------------------------------------------------

  /** A directory as BuildTables leaves it. */
  predicate DirectoryOk(low: Layout, dir: seq<int>) {
    && |dir| == PAGE_TABLE_LENGTH
    && forall i :: KERNEL_SLOT <= i < PAGE_TABLE_LENGTH ==>
         dir[i] == Flagged(low.vmStart + PAGE_SIZE + (i - KERNEL_SLOT) * PAGE_SIZE)
  }

  /** Where the processor finds the entry of a virtual address: 32-bit paging, directory then table. */
  function WalkEntry(dir: seq<int>, v: int): int
    requires |dir| == PAGE_TABLE_LENGTH && 0 <= v < TOTAL_VM_SIZE
  {
    dir[v / PAGE_DIR_SIZE] / PAGE_SIZE * PAGE_SIZE + 4 * (v / PAGE_SIZE % PAGE_TABLE_LENGTH)
  }

  /** Where `kinstall` and `kuninstall` look: entry number (v - KERNEL_VM_BASE) / PAGE_SIZE of the array after the directory. */
  function FlatEntry(low: Layout, v: int): int {
    low.vmStart + PAGE_SIZE + 4 * ((v - KERNEL_VM_BASE) / PAGE_SIZE)
  }

  lemma SplitPageNumber(v: int)
    requires KERNEL_VM_BASE <= v < TOTAL_VM_SIZE
    ensures KERNEL_SLOT <= v / PAGE_DIR_SIZE < PAGE_TABLE_LENGTH
    ensures (v - KERNEL_VM_BASE) / PAGE_SIZE == (v / PAGE_DIR_SIZE - KERNEL_SLOT) * PAGE_TABLE_LENGTH + v / PAGE_SIZE % PAGE_TABLE_LENGTH
  {
  }

  /** For every kernel address the flat index and the processor's walk reach the same entry. */
  lemma FlatIsWalk(low: Layout, dir: seq<int>, v: int)
    requires LayoutOk(low) && DirectoryOk(low, dir) && KERNEL_VM_BASE <= v < TOTAL_VM_SIZE
    ensures WalkEntry(dir, v) == FlatEntry(low, v)
  {
    SplitPageNumber(v);
    var i := v / PAGE_DIR_SIZE;
    assert dir[i] / PAGE_SIZE * PAGE_SIZE == low.vmStart + PAGE_SIZE + (i - KERNEL_SLOT) * PAGE_SIZE;
  }

  /** The cursor `page::init` computes for `kinstall_append`. Adding KERNEL_VM_BASE to a pointer to 4096-byte tables
      scales it by 4096, which is a multiple of 2^32 and so adds nothing; the second addition is the one that counts. */
  function Cursor(dir: seq<int>, v: int): int
    requires |dir| == PAGE_TABLE_LENGTH && 0 <= v < TOTAL_VM_SIZE
  {
    var table := (dir[v / PAGE_DIR_SIZE] / PAGE_SIZE * PAGE_SIZE + KERNEL_VM_BASE * PAGE_SIZE) % TOTAL_VM_SIZE;
    (table + 4 * (v / PAGE_SIZE % PAGE_TABLE_LENGTH) + KERNEL_VM_BASE) % TOTAL_VM_SIZE
  }

  /** The cursor names the same entry as the flat index, seen through the kernel's own mapping. */
  lemma CursorIsFlat(low: Layout, dir: seq<int>, v: int)
    requires LayoutOk(low) && DirectoryOk(low, dir) && KERNEL_VM_BASE <= v < TOTAL_VM_SIZE
    ensures Cursor(dir, v) == FlatEntry(low, v) + KERNEL_VM_BASE
  {
    SplitPageNumber(v);
    var i := v / PAGE_DIR_SIZE;
    var base := low.vmStart + PAGE_SIZE + (i - KERNEL_SLOT) * PAGE_SIZE;
    assert dir[i] / PAGE_SIZE * PAGE_SIZE == base;
    assert (base + KERNEL_VM_BASE * PAGE_SIZE) % TOTAL_VM_SIZE == base;
  }

  // ---- What boot maps ------------------------------------------------------------------

  lemma PageStart(v: int)
    requires KERNEL_VM_BASE <= v < TOTAL_VM_SIZE && v % PAGE_SIZE == 0
    ensures var p := v - KERNEL_VM_BASE;
            p % PAGE_SIZE == 0 && p / PAGE_SIZE * PAGE_SIZE == p && 0 <= p / PAGE_SIZE < KERNEL_VM_PAGE_TABLES * PAGE_TABLE_LENGTH
  {
    var q := v / PAGE_SIZE;
    assert v == PAGE_SIZE * q;
    assert v - KERNEL_VM_BASE == PAGE_SIZE * (q - KERNEL_VM_BASE / PAGE_SIZE);
  }

  lemma FlagBits(q: int, flags: int)
    requires 0 <= flags < 4096
    ensures (4096 * q + flags) / 4096 == q
  {
  }

  lemma Odd(half: int)
    ensures (2 * half + 1) % 2 == 1
  {
  }

  lemma EntryNamesItsPage(low: Layout, p: int)
    requires p >= 0 && p % PAGE_SIZE == 0
    ensures var e := EntryFor(low, p);
            && (e != 0 <==> low.roStart <= p < low.roEnd + PAGE_SIZE || low.rwStart <= p < low.vmEnd + PAGE_SIZE)
            && (e != 0 ==> e / PAGE_SIZE * PAGE_SIZE == p && e % 2 == 1)
  {
    var q := p / PAGE_SIZE;
    assert p == PAGE_SIZE * q;
    FlagBits(q, PRESENT);
    FlagBits(q, RW + PRESENT);
    Odd(2048 * q);
    Odd(2048 * q + 1);
  }

  /** Every kernel page that is mapped at boot is mapped to its own address less KERNEL_VM_BASE, and a page is mapped
      exactly when it belongs to the image, to the tables, or to the page after either. */
  lemma BootMapsTheImage(low: Layout, tables: seq<int>, v: int)
    requires |tables| == KERNEL_VM_PAGE_TABLES * PAGE_TABLE_LENGTH
    requires forall e :: 0 <= e < |tables| ==> tables[e] == EntryFor(low, e * PAGE_SIZE)
    requires KERNEL_VM_BASE <= v < TOTAL_VM_SIZE && v % PAGE_SIZE == 0
    ensures var p := v - KERNEL_VM_BASE;
            var e := tables[p / PAGE_SIZE];
            && (e != 0 <==> low.roStart <= p < low.roEnd + PAGE_SIZE || low.rwStart <= p < low.vmEnd + PAGE_SIZE)
            && (e != 0 ==> e / PAGE_SIZE * PAGE_SIZE == p && e % 2 == 1)
  {
    var p := v - KERNEL_VM_BASE;
    PageStart(v);
    EntryNamesItsPage(low, p);
  }

  /** The read/write area is not all writable: its first page, when it starts on a page boundary, falls in the extra
      page of the read-only test. A page of that area is writable exactly from one page after the read-only end. */
  lemma WritableExactlyFrom(low: Layout, p: int)
    requires low.roStart <= low.roEnd == low.rwStart <= p < low.vmEnd + PAGE_SIZE && p % PAGE_SIZE == 0
    ensures EntryFor(low, p) / 2 % 2 == 1 <==> p >= low.roEnd + PAGE_SIZE
    ensures low.rwStart % PAGE_SIZE == 0 ==> EntryFor(low, low.rwStart) == low.rwStart + PRESENT
  {
    var q := p / PAGE_SIZE;
    assert p == 4096 * q;
    SecondBit(1024 * q);
    assert EntryFor(low, p) == if p < low.roEnd + PAGE_SIZE then p + 1 else p + 3;
  }

  lemma SecondBit(n: int)
    ensures (4 * n + 1) / 2 % 2 == 0 && (4 * n + 3) / 2 % 2 == 1
  {
    assert (4 * n + 1) / 2 == 2 * n && (4 * n + 3) / 2 == 2 * n + 1;
  }
}
