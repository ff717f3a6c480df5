/**
The code of src/mem/vm.cpp and src/mem/object.cpp that changes page tables, resident lists and window lists in place,
against the functions of VirtualMemory and PageTables. Objects and address spaces are named by numbers.
*/
module ObjectMaps {
  import opened Wrappers
  import opened PageTables
  import VM = VirtualMemory
  import opened VirtualMemory

  /** The spaces, with the tables of one of them replaced. */
  function WithTables(spaces: Spaces, m: nat, t: Tables): Spaces
    requires m in spaces
  {
    spaces[m := spaces[m].(tables := t)]
  }

  lemma FramesOfOnePage(frame: int)
    ensures Frames([Run(frame, 1)]) == [frame]
  {
    var run := Run(frame, 1);
    assert Frames([run]) == RunFrames(run) + Frames([]);
  }

  lemma InsertedStep(t: Tables, addr: int, frames: seq<int>, i: nat, min: int, max: int)
    requires Shaped(t) && 0 <= addr < max <= KERNEL_VM_BASE && i < |frames|
    ensures Inserted(t, addr, frames[i..], min, max)
         == Inserted(if addr >= min then Set(t, addr / PAGE_SIZE, frames[i]) else t, addr + PAGE_SIZE, frames[i + 1..], min, max)
  {
    assert frames[i..][1..] == frames[i + 1..];
  }

  /** The byte arithmetic of `resolve_fault`, in pages. */
  lemma FaultPage(w: Window, addr: nat)
    ensures w.base * PAGE_SIZE <= addr < (w.base + w.pages) * PAGE_SIZE <==> w.Has(addr / PAGE_SIZE)
    ensures addr - w.base * PAGE_SIZE + w.offset * PAGE_SIZE - addr % PAGE_SIZE == w.PageOf(addr / PAGE_SIZE) * PAGE_SIZE
  {
  }

  /** Cutting a page aligned offset to 32 bits. */
  lemma CutOffset(p: int)
    ensures p * PAGE_SIZE % ADDRESS_SPACE / PAGE_SIZE == p % ADDRESS_PAGES
  {
    var q, r := p / ADDRESS_PAGES, p % ADDRESS_PAGES;
    assert p * PAGE_SIZE == q * ADDRESS_SPACE + r * PAGE_SIZE && 0 <= r * PAGE_SIZE < ADDRESS_SPACE;
  }

  /** `remove_object` has visited the first `done` windows of `all` and stands at position k of what is left. */
  ghost predicate Halfway(all: Space, from: Object, o: nat, done: nat, now: Space, obj: Object, k: nat) {
    && Shaped(all.tables) && Shaped(now.tables) && done <= |all.windows| && k <= |now.windows|
    && now.windows[k..] == all.windows[done..]
    && obj == from.(windows := obj.windows)
    && Others(all.windows, o) == now.windows[..k] + Others(all.windows[done..], o)
    && DrainAll(all.tables, all.windows, o, from.pages) == DrainAll(now.tables, all.windows[done..], o, from.pages)
    && WithoutAll(from.windows, all.windows, o) == WithoutAll(obj.windows, all.windows[done..], o)
  }

  lemma HalfwayErase(all: Space, from: Object, o: nat, done: nat, now: Space, obj: Object, k: nat)
    requires Halfway(all, from, o, done, now, obj, k) && k < |now.windows| && now.windows[k].obj == o
    ensures var w := now.windows[k];
            var t := Drain(now.tables, w, obj.pages);
            && (t == None ==> DrainAll(all.tables, all.windows, o, from.pages) == None)
            && (t.Some? ==>
                  Halfway(all, from, o, done + 1, Space(t.value, now.windows[..k] + now.windows[k + 1..]),
                          obj.(windows := Without(obj.windows, w)), k))
  {
    var ws := now.windows[..k] + now.windows[k + 1..];
    assert all.windows[done..][0] == now.windows[k] && all.windows[done..][1..] == all.windows[done + 1..];
    assert ws[..k] == now.windows[..k];
    assert ws[k..] == now.windows[k..][1..];
  }

  lemma HalfwaySkip(all: Space, from: Object, o: nat, done: nat, now: Space, obj: Object, k: nat)
    requires Halfway(all, from, o, done, now, obj, k) && k < |now.windows| && now.windows[k].obj != o
    ensures Halfway(all, from, o, done + 1, now, obj, k + 1)
  {
    assert all.windows[done..][0] == now.windows[k] && all.windows[done..][1..] == all.windows[done + 1..];
    assert now.windows[..k + 1] == now.windows[..k] + [now.windows[k]];
    assert now.windows[k + 1..] == now.windows[k..][1..];
  }

  lemma HalfwayEnds(all: Space, from: Object, o: nat, done: nat, now: Space, obj: Object, k: nat)
    requires Halfway(all, from, o, done, now, obj, k) && k == |now.windows|
    ensures DrainAll(all.tables, all.windows, o, from.pages) == Some(now.tables) && now.windows == Others(all.windows, o)
    ensures obj == from.(windows := WithoutAll(from.windows, all.windows, o))
  {
    assert all.windows[done..] == [] && now.windows[..k] == now.windows;
  }

  class Memory {
    var objects: Objects
    var spaces: Spaces

    ghost function State(): System
      reads this
    {
      System(objects, spaces)
    }

    /** `_new_table` */
    method EnsureTable(m: nat, slot: int)
      requires m in spaces && Shaped(spaces[m].tables) && 0 <= slot < SLOTS
      modifies this`spaces
      ensures spaces == WithTables(old(spaces), m, NewTable(old(spaces)[m].tables, slot))
    {
      if slot !in spaces[m].tables {
        var table := [];
        while |table| < ENTRIES
          invariant |table| <= ENTRIES && forall i :: 0 <= i < |table| ==> table[i] == None
        {
          table := table + [None];
        }
        assert table == seq(ENTRIES, _ => None);
        spaces := spaces[m := spaces[m].(tables := spaces[m].tables[slot := table])];
      }
    }

    /** The body of the loop of `insert` for an address not below `min`. */
    method WriteEntry(m: nat, addr: int, frame: int)
      requires m in spaces && Shaped(spaces[m].tables) && 0 <= addr < KERNEL_VM_BASE
      modifies this`spaces
      ensures spaces == WithTables(old(spaces), m, Set(old(spaces)[m].tables, addr / PAGE_SIZE, frame))
    {
      var dirSlot := addr / 0x400000;
      var pageSlot := addr / PAGE_SIZE % ENTRIES;
      assert dirSlot == addr / PAGE_SIZE / ENTRIES;
      EnsureTable(m, dirSlot);
      var t := spaces[m].tables;
      spaces := spaces[m := spaces[m].(tables := t[dirSlot := t[dirSlot][pageSlot := Some(frame)]])];
    }

    /** `Map::insert` of a chain of runs. */
    method InsertChain(m: nat, first: int, chain: seq<Run>, min: int, max: int)
      requires m in spaces && Shaped(spaces[m].tables) && max <= KERNEL_VM_BASE && chain != []
      modifies this`spaces
      ensures spaces == WithTables(old(spaces), m, Insert(old(spaces)[m].tables, first, Frames(chain), min, max))
      decreases |chain|
    {
      if first >= max || first < 0 { return; }
      var addr, i := first, 0;
      ghost var frames := Frames(chain);
      while i < chain[0].consecutive
        invariant i <= chain[0].consecutive && addr == first + i * PAGE_SIZE && addr < max && m in spaces
        invariant spaces == WithTables(old(spaces), m, spaces[m].tables) && Shaped(spaces[m].tables)
        invariant Inserted(old(spaces)[m].tables, first, frames, min, max)
               == Inserted(spaces[m].tables, addr, frames[i..], min, max)
      {
        ghost var t := spaces[m].tables;
        assert frames[i] == RunFrames(chain[0])[i];
        InsertedStep(t, addr, frames, i, min, max);
        if addr >= min { WriteEntry(m, addr, chain[0].frame + i * PAGE_SIZE); }
        addr := addr + PAGE_SIZE;
        i := i + 1;
        if addr >= max { return; }
      }
      assert frames[i..] == Frames(chain[1..]);
      if |chain| > 1 { InsertChain(m, addr, chain[1..], min, max); }
    }

    /** The `insert` call for one resident page of a window. */
    method ShowPage(w: Window, x: Resident)
      requires SpacesShaped(spaces) && Fits(spaces, w)
      modifies this`spaces
      ensures spaces == WithTables(old(spaces), w.space, Show(old(spaces)[w.space].tables, w, x))
    {
      FramesOfOnePage(x.frame);
      var addr := (w.base + x.page) % ADDRESS_PAGES - w.offset;
      InsertChain(w.space, addr * PAGE_SIZE, [Run(x.frame, 1)], w.base * PAGE_SIZE, (w.base + w.pages) * PAGE_SIZE);
    }

    /** The last loop of `generate`. */
    method ShowEverywhere(ws: seq<Window>, x: Resident)
      requires SpacesShaped(spaces) && AllFit(spaces, ws)
      modifies this`spaces
      ensures spaces == ShowAll(old(spaces), ws, x)
    {
      var i := 0;
      while i < |ws|
        invariant i <= |ws| && SpacesShaped(spaces) && AllFit(spaces, ws) && AllFit(spaces, ws[i..])
        invariant ShowAll(old(spaces), ws, x) == ShowAll(spaces, ws[i..], x)
      {
        var w := ws[i];
        assert w in ws && Fits(spaces, w);
        assert ws[i..][0] == w && ws[i..][1..] == ws[i + 1..];
        ghost var before := spaces;
        ShowPage(w, x);
        assert spaces.Keys == before.Keys;
        assert forall u :: Fits(before, u) ==> Fits(spaces, u);
        assert AllFit(spaces, ws) && forall u :: u in ws[i + 1..] ==> u in ws;
        i := i + 1;
      }
    }

    /** `Object::generate` for one page: clip to the limit, find the place, clip to the next entry, splice, show. */
    method GeneratePage(o: nat, p: nat, frame: int)
      requires Linked(State()) && o in objects
      modifies this
      ensures State() == VM.Generate(old(State()), o, p, frame)
    {
      var obj := objects[o];
      var count := 1;
      if p + count > obj.maxPages {
        if p > obj.maxPages { return; }
        count := obj.maxPages - p;
      }
      var k := 0;
      while k < |obj.pages| && obj.pages[k].page < p
        invariant k <= |obj.pages| && forall i :: 0 <= i < k ==> obj.pages[i].page < p
      {
        k := k + 1;
      }
      PlaceUnique(obj.pages, p, k);
      if k < |obj.pages| && p + count >= obj.pages[k].page { count := obj.pages[k].page - p; }
      if count == 0 { return; }
      objects := objects[o := obj.(pages := obj.pages[..k] + [Resident(p, frame)] + obj.pages[k..])];
      assert AllFit(spaces, obj.windows) by {
        assert forall w :: w in obj.windows ==> LinkedToSpace(spaces, o, w);
      }
      ShowEverywhere(obj.windows, Resident(p, frame));
    }

    /** `Map::add_object`: the constructor of the window calls `add_object_in_map`, then the space lists it. */
    method AddWindow(w: Window)
      requires Linked(State()) && w.obj in objects && Fits(spaces, w)
      modifies this
      ensures State() == VM.AddObject(old(State()), w)
    {
      var obj, m := objects[w.obj], w.space;
      objects := objects[w.obj := obj.(windows := [w] + obj.windows)];
      var i := 0;
      while i < |obj.pages|
        invariant i <= |obj.pages| && m in spaces && Shaped(spaces[m].tables)
        invariant objects == old(objects)[w.obj := obj.(windows := [w] + obj.windows)]
        invariant spaces == WithTables(old(spaces), m, spaces[m].tables) && SpacesShaped(spaces)
        invariant Fill(old(spaces)[m].tables, w, obj.pages) == Fill(spaces[m].tables, w, obj.pages[i..])
      {
        assert obj.pages[i..][1..] == obj.pages[i + 1..];
        ShowPage(w, obj.pages[i]);
        i := i + 1;
      }
      assert obj.pages[i..] == [];
      assert spaces[m].tables == Fill(old(spaces)[m].tables, w, obj.pages) && spaces[m].windows == old(spaces)[m].windows;
      spaces := spaces[m := spaces[m].(windows := [w] + spaces[m].windows)];
      assert spaces == old(spaces)[m := Space(Fill(old(spaces)[m].tables, w, obj.pages), [w] + old(spaces)[m].windows)];
    }

    /** `Map::resolve_fault` at a byte address. */
    method ResolveFault(m: nat, addr: nat, frame: int) returns (ok: bool)
      requires Linked(State()) && m in spaces
      modifies this
      ensures (State(), ok) == VM.ResolveFault(old(State()), m, addr / PAGE_SIZE, frame)
    {
      var ws := spaces[m].windows;
      var k := 0;
      while k < |ws|
        invariant k <= |ws| && State() == old(State())
        invariant FirstWindow(ws, addr / PAGE_SIZE) == k + FirstWindow(ws[k..], addr / PAGE_SIZE)
      {
        var w := ws[k];
        assert ws[k..][0] == w && ws[k..][1..] == ws[k + 1..];
        FaultPage(w, addr);
        if addr >= w.base * PAGE_SIZE && addr < (w.base + w.pages) * PAGE_SIZE {
          var excess := addr % PAGE_SIZE;
          assert LinkedToObject(objects, m, w);
          var offset := (addr - w.base * PAGE_SIZE + w.offset * PAGE_SIZE - excess) % ADDRESS_SPACE;
          CutOffset(w.PageOf(addr / PAGE_SIZE));
          var page := offset / PAGE_SIZE;
          GeneratePage(w.obj, page, frame);
          return true;
        }
        k := k + 1;
      }
      ok := false;
    }

    /** The loop of `remove_object_in_map`, each page through `Map::clear`. False is a store that has no table. */
    method ClearResident(w: Window, pages: seq<Resident>) returns (ok: bool)
      requires w.space in spaces && Shaped(spaces[w.space].tables)
      modifies this`spaces
      ensures match Drain(old(spaces)[w.space].tables, w, pages)
              case None => !ok
              case Some(t) => ok && spaces == WithTables(old(spaces), w.space, t)
    {
      var m, i := w.space, 0;
      while i < |pages|
        invariant i <= |pages| && m in spaces && Shaped(spaces[m].tables)
        invariant spaces == WithTables(old(spaces), m, spaces[m].tables)
        invariant Drain(old(spaces)[m].tables, w, pages) == Drain(spaces[m].tables, w, pages[i..])
      {
        assert pages[i..][1..] == pages[i + 1..];
        var v := (w.base + pages[i].page) % ADDRESS_PAGES - w.offset;
        if v >= 0 {
          var dirSlot, pageSlot := v / ENTRIES, v % ENTRIES;
          var t := spaces[m].tables;
          if dirSlot >= SLOTS || dirSlot !in t { return false; }
          spaces := spaces[m := spaces[m].(tables := t[dirSlot := t[dirSlot][pageSlot := None]])];
        }
        i := i + 1;
      }
      ok := true;
    }

    /** `list::erase` of the k-th window and the destructor of the `ObjectInMap`. */
    method EraseWindow(m: nat, k: nat) returns (ok: bool)
      requires m in spaces && Shaped(spaces[m].tables) && k < |spaces[m].windows|
      requires var w := spaces[m].windows[k]; w.space == m && w.obj in objects
      modifies this
      ensures var w := old(spaces)[m].windows[k];
              var obj := old(objects)[w.obj];
              match Drain(old(spaces)[m].tables, w, obj.pages)
              case None => !ok
              case Some(t) =>
                && ok && objects == old(objects)[w.obj := obj.(windows := Without(obj.windows, w))]
                && spaces == old(spaces)[m := Space(t, old(spaces)[m].windows[..k] + old(spaces)[m].windows[k + 1..])]
    {
      var ws := spaces[m].windows;
      var w := ws[k];
      var obj := objects[w.obj];
      ok := ClearResident(w, obj.pages);
      if !ok { return; }
      objects := objects[w.obj := obj.(windows := Without(obj.windows, w))];
      spaces := spaces[m := spaces[m].(windows := ws[..k] + ws[k + 1..])];
    }

    /** `Map::remove_object_at`: the first window of the object at that base. */
    method RemoveAt(m: nat, o: nat, base: nat) returns (found: Option<nat>, ok: bool)
      requires Linked(State()) && m in spaces
      modifies this
      ensures match found
              case None => ok && State() == old(State())
                           && forall w :: w in spaces[m].windows ==> !(w.obj == o && w.base == base)
              case Some(k) => k < |old(spaces)[m].windows| && old(spaces)[m].windows[k].obj == o
                              && old(spaces)[m].windows[k].base == base
                              && (forall j :: 0 <= j < k ==>
                                    !(old(spaces)[m].windows[j].obj == o && old(spaces)[m].windows[j].base == base))
                              && Remove(old(State()), m, k) == if ok then Some(State()) else None
    {
      var ws := spaces[m].windows;
      var k := 0;
      ok := true;
      while k < |ws|
        invariant k <= |ws| && State() == old(State()) && ok
        invariant forall j :: 0 <= j < k ==> !(ws[j].obj == o && ws[j].base == base)
      {
        if ws[k].obj == o && ws[k].base == base {
          assert LinkedToObject(objects, m, ws[k]);
          ok := EraseWindow(m, k);
          return Some(k), ok;
        }
        k := k + 1;
      }
      found := None;
    }

    /** `Map::remove_object`: walk the windows, erasing those of the object. */
    method RemoveAll(m: nat, o: nat) returns (ok: bool)
      requires Linked(State()) && m in spaces && o in objects
      modifies this
      ensures VM.RemoveObject(old(State()), m, o) == if ok then Some(State()) else None
    {
      ghost var all, from := spaces[m], objects[o];
      ghost var done := 0;    // windows visited
      var k := 0;
      while k < |spaces[m].windows|
        invariant m in spaces && o in objects
        invariant spaces == old(spaces)[m := spaces[m]] && objects == old(objects)[o := objects[o]]
        invariant Halfway(all, from, o, done, spaces[m], objects[o], k)
        decreases |all.windows| - done
      {
        var w := spaces[m].windows[k];
        assert w == all.windows[done..][0];
        assert w in old(spaces)[m].windows && LinkedToObject(old(objects), m, w);
        if w.obj == o {
          HalfwayErase(all, from, o, done, spaces[m], objects[o], k);
          ok := EraseWindow(m, k);
          if !ok { return; }
        } else {
          HalfwaySkip(all, from, o, done, spaces[m], objects[o], k);
          k := k + 1;
        }
        done := done + 1;
      }
      HalfwayEnds(all, from, o, done, spaces[m], objects[o], k);
      ok := true;
    }
  }
}
