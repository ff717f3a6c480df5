/**
Inputs on which the properties of VirtualMemory fail. Removals and overlaps start from a state that a run from the empty
system reaches; the window whose addresses wrap, which no such run adds, is added to an empty address space.
*/
module MemoryMishaps {
  import opened Wrappers
  import opened PageTables
  import opened VirtualMemory

  ghost predicate Reachable(s: System) {
    exists states, ops :: IsRun(states, ops) && states[|states| - 1] == s
  }

  const NOTHING := System(map[], map[])

  lemma StartReachable()
    ensures Reachable(NOTHING) && Inv(NOTHING)
  {
    assert IsRun([NOTHING], []) && [NOTHING][0] == NOTHING;
  }

  lemma StepReachable(s: System, op: Op)
    requires Reachable(s) && Inv(s) && Legal(s, op)
    ensures Reachable(Do(s, op)) && Inv(Do(s, op))
  {
    var states, ops :| IsRun(states, ops) && states[|states| - 1] == s;
    var states', ops' := states + [Do(s, op)], ops + [op];
    forall i | 0 <= i < |ops'|
      ensures Linked(states'[i]) && Legal(states'[i], ops'[i]) && states'[i + 1] == Do(states'[i], ops'[i])
    {
      if i < |ops| { assert Linked(states[i]) && states[i + 1] == Do(states[i], ops[i]); }
    }
    assert IsRun(states', ops') && states'[|states'| - 1] == Do(s, op);
    DoKeeps(s, op);
  }

  lemma ShowOutside(t: Tables, w: Window, x: Resident)
    requires Shaped(t) && w.base + w.pages <= USER_PAGES && !w.Has(Target(w, x.page))
    ensures Show(t, w, x) == t
  {
    var addr, min, max := Target(w, x.page) * PAGE_SIZE, w.base * PAGE_SIZE, (w.base + w.pages) * PAGE_SIZE;
    if 0 <= addr < max {
      assert addr < min;
      assert Inserted(t, addr, [x.frame], min, max) == Inserted(t, addr + PAGE_SIZE, [x.frame][1..], min, max);
    }
  }

  lemma ShowInside(t: Tables, w: Window, x: Resident)
    requires Shaped(t) && w.base + w.pages <= USER_PAGES && w.Has(Target(w, x.page))
    ensures Show(t, w, x) == Set(t, Target(w, x.page), x.frame)
  {
    var v := Target(w, x.page);
    var addr, min, max := v * PAGE_SIZE, w.base * PAGE_SIZE, (w.base + w.pages) * PAGE_SIZE;
    assert min <= addr < max && addr / PAGE_SIZE == v;
    assert Inserted(t, addr, [x.frame], min, max)
        == Inserted(Set(t, v, x.frame), addr + PAGE_SIZE, [x.frame][1..], min, max);
  }

  /** One object with one window: what the first operations lead to. */
  lemma OneWindow(maxPages: nat, w: Window)
    requires maxPages < ADDRESS_PAGES && w.obj == 0 && w.space == 0 && w.base + w.pages <= USER_PAGES && NoWrap(w)
    ensures var s := System(map[0 := Object([], maxPages, [w])], map[0 := Space(map[], [w])]); Reachable(s) && Inv(s)
  {
    StartReachable();
    StepReachable(NOTHING, NewObject(0, maxPages));
    var s1 := System(map[0 := Object([], maxPages, [])], map[]);
    assert Do(NOTHING, NewObject(0, maxPages)) == s1;
    StepReachable(s1, NewSpace(0));
    var s2 := System(map[0 := Object([], maxPages, [])], map[0 := Space(map[], [])]);
    assert Do(s1, NewSpace(0)) == s2;
    assert CanAdd(s2, w);
    StepReachable(s2, Add(w));
    assert [w] + [] == [w];
    assert Do(s2, Add(w)) == System(map[0 := Object([], maxPages, [w])], map[0 := Space(map[], [w])]);
  }

  // ---- A store through a table that does not exist ----------------------------------------------

  const SMALL := Window(0, 0, 2, 0, 1, 1)
  const FAR := Resident(1024, 0x1000)
  const FAR_AWAY := System(map[0 := Object([FAR], 2048, [SMALL])], map[0 := Space(map[], [SMALL])])

  lemma FarAwayReachable()
    ensures Reachable(FAR_AWAY) && Inv(FAR_AWAY)
  {
    OneWindow(2048, SMALL);
    var s := System(map[0 := Object([], 2048, [SMALL])], map[0 := Space(map[], [SMALL])]);
    StepReachable(s, Generating(0, 1024, 0x1000));
    ShowOutside(map[], SMALL, FAR);
    assert ShowAll(s.spaces, [SMALL], FAR) == s.spaces by {
      assert [SMALL][1..] == [] && s.spaces[0 := Space(map[], [SMALL])] == s.spaces;
    }
    assert [][..0] + [FAR] + [][0..] == [FAR];
    assert Generate(s, 0, 1024, 0x1000) == FAR_AWAY;
  }

  /** A window on the first page of an object and a page generated far beyond it: nothing is mapped, and removing the
      window clears page 1026 in a table that was never made. */
  lemma RemovalWithoutTable()
    ensures Reachable(FAR_AWAY) && Inv(FAR_AWAY) && Remove(FAR_AWAY, 0, 0) == None
  {
    FarAwayReachable();
    hide Reachable, Inv;
    assert LinkedToObject(FAR_AWAY.objects, 0, SMALL);
    assert !HasPlace(map[], Target(SMALL, FAR.page));
    assert Drain(map[], SMALL, [FAR]) == None;
  }

  // ---- A window that clears its neighbour -----------------------------------------------------------

  const LEFT := Window(0, 0, 2, 0, 1, 1)
  const RIGHT := Window(0, 0, 3, 1, 1, 2)
  const FIRST := Resident(0, 0x1000)
  const NEIGHBOURS := System(map[0 := Object([FIRST], 2, [RIGHT, LEFT])],
                             map[0 := Space(Set(map[], 2, 0x1000), [RIGHT, LEFT])])

  const SIDE_BY_SIDE := System(map[0 := Object([], 2, [RIGHT, LEFT])], map[0 := Space(map[], [RIGHT, LEFT])])

  lemma SideBySideReachable()
    ensures Reachable(SIDE_BY_SIDE) && Inv(SIDE_BY_SIDE)
  {
    OneWindow(2, LEFT);
    var s := System(map[0 := Object([], 2, [LEFT])], map[0 := Space(map[], [LEFT])]);
    assert CanAdd(s, RIGHT);
    hide Reachable, Inv;
    StepReachable(s, Add(RIGHT));
    assert [RIGHT] + [LEFT] == [RIGHT, LEFT];
    assert Do(s, Add(RIGHT)) == SIDE_BY_SIDE;
  }

  /** Generating a page for two windows of a fresh system of one object. */
  lemma GenerateForTwo(t: Tables)
    requires t == Set(map[], 2, 0x1000) && Linked(SIDE_BY_SIDE)
    ensures Generate(SIDE_BY_SIDE, 0, 0, 0x1000) == NEIGHBOURS
  {
    var s, ws := SIDE_BY_SIDE, [RIGHT, LEFT];
    ShowOutside(map[], RIGHT, FIRST);
    ShowInside(map[], LEFT, FIRST);
    hide Show, Set;
    assert ws[1..] == [LEFT] && [LEFT][1..] == [];
    assert s.spaces[0 := Space(map[], ws)] == s.spaces;
    assert ShowAll(s.spaces, ws, FIRST) == ShowAll(s.spaces, [LEFT], FIRST);
    assert ShowAll(s.spaces, [LEFT], FIRST) == NEIGHBOURS.spaces;
    assert [][..0] + [FIRST] + [][0..] == [FIRST];
  }

  lemma NeighboursReachable()
    ensures Reachable(NEIGHBOURS) && Inv(NEIGHBOURS)
  {
    SideBySideReachable();
    StepReachable(SIDE_BY_SIDE, Generating(0, 0, 0x1000));
    GenerateForTwo(Set(map[], 2, 0x1000));
    hide Reachable, Inv, Generate;
  }

  /** Two windows side by side on the same object: removing the second takes away the page the first one shows. */
  lemma RemovalHitsNeighbour()
    ensures Reachable(NEIGHBOURS) && Inv(NEIGHBOURS)
    ensures Remove(NEIGHBOURS, 0, 0).Some? && !Inv(Remove(NEIGHBOURS, 0, 0).value)
  {
    NeighboursReachable();
    var s, l := NEIGHBOURS, [FIRST];
    assert LinkedToObject(s.objects, 0, RIGHT);
    assert l[0] in l && Target(RIGHT, l[0].page) == 2 && Hits(RIGHT, l, 2);
    assert !RemovalStaysInside(s, 0, 0) by {
      assert s.spaces[0].windows[0] == RIGHT && !RIGHT.Has(2) && Entry(s.spaces[0].tables, 2) == Some(0x1000);
    }
    DrainFaultsExactlyWhen(s.spaces[0].tables, RIGHT, l);
    RemoveKeepsExactlyWhen(s, 0, 0);
  }

  // ---- A window laid over another one ------------------------------------------------------------------

  const OVER := Window(0, 0, 2, 1, 1, 3)

  /** A window on the second page of an object, laid where the first page is already shown: the tables go on
      naming the first page. */
  lemma OverlapShowsTheWrongPage()
    ensures Reachable(NEIGHBOURS) && Inv(NEIGHBOURS) && Fits(NEIGHBOURS.spaces, OVER)
    ensures var s := AddObject(NEIGHBOURS, OVER);
            Linked(s) && !Agree(s) && Entry(s.spaces[0].tables, 2) == Some(0x1000)
  {
    NeighboursReachable();
    var s, ws := NEIGHBOURS, [RIGHT, LEFT];
    assert ws[1] == LEFT && LEFT in ws && LinkedToObject(s.objects, 0, LEFT);
    assert Lookup([FIRST], 0) == Some(0x1000) && Lookup([FIRST], 1) == None by { assert [FIRST][1..] == []; }
    assert LEFT.Has(2) && OVER.Has(2) && !SameThere(s, OVER, LEFT, 2);
    assert !SameWhereShared(s, OVER);
    AddAgreesExactlyWhen(s, OVER);
    FillIsExact(s.spaces[0].tables, OVER, [FIRST], 2);
  }

  // ---- An object that clears another object's page --------------------------------------------------------

  const OTHER := Window(1, 0, 2, 0, 1, 3)
  const FOREIGN := Resident(0, 0x2000)
  const STRANGERS := System(map[0 := Object([FIRST], 2, [RIGHT]), 1 := Object([FOREIGN], 1, [OTHER])],
                            map[0 := Space(Set(map[], 2, 0x2000), [OTHER, RIGHT])])

  const ONE_PAGE := System(map[0 := Object([FIRST], 2, [RIGHT])], map[0 := Space(map[], [RIGHT])])
  const TWO_OBJECTS := System(map[0 := Object([FIRST], 2, [RIGHT]), 1 := Object([], 1, [])],
                              map[0 := Space(map[], [RIGHT])])
  const TWO_WINDOWS := System(map[0 := Object([FIRST], 2, [RIGHT]), 1 := Object([], 1, [OTHER])],
                              map[0 := Space(map[], [OTHER, RIGHT])])

  lemma OnePageReachable()
    ensures Reachable(ONE_PAGE) && Inv(ONE_PAGE)
  {
    OneWindow(2, RIGHT);
    var s := System(map[0 := Object([], 2, [RIGHT])], map[0 := Space(map[], [RIGHT])]);
    StepReachable(s, Generating(0, 0, 0x1000));
    ShowOutside(map[], RIGHT, FIRST);
    assert ShowAll(s.spaces, [RIGHT], FIRST) == s.spaces by {
      assert [RIGHT][1..] == [] && s.spaces[0 := Space(map[], [RIGHT])] == s.spaces;
    }
    assert [][..0] + [FIRST] + [][0..] == [FIRST];
    assert Generate(s, 0, 0, 0x1000) == ONE_PAGE;
  }

  lemma TwoObjectsReachable()
    ensures Reachable(TWO_OBJECTS) && Inv(TWO_OBJECTS)
  {
    OnePageReachable();
    hide Reachable, Inv;
    StepReachable(ONE_PAGE, NewObject(1, 1));
    assert Do(ONE_PAGE, NewObject(1, 1)) == TWO_OBJECTS;
  }

  lemma TwoWindowsReachable()
    ensures Reachable(TWO_WINDOWS) && Inv(TWO_WINDOWS)
  {
    TwoObjectsReachable();
    assert CanAdd(TWO_OBJECTS, OTHER);
    hide Reachable, Inv;
    StepReachable(TWO_OBJECTS, Add(OTHER));
    assert [OTHER] + [RIGHT] == [OTHER, RIGHT] && [OTHER] + [] == [OTHER];
    assert Do(TWO_OBJECTS, Add(OTHER)) == TWO_WINDOWS;
  }

  lemma GenerateForeign()
    requires Linked(TWO_WINDOWS)
    ensures Generate(TWO_WINDOWS, 1, 0, 0x2000) == STRANGERS
  {
    var s := TWO_WINDOWS;
    ShowInside(map[], OTHER, FOREIGN);
    hide Show, Set;
    assert [OTHER][1..] == [] && [][..0] + [FOREIGN] + [][0..] == [FOREIGN];
    assert ShowAll(s.spaces, [OTHER], FOREIGN) == STRANGERS.spaces;
  }

  lemma StrangersReachable()
    ensures Reachable(STRANGERS) && Inv(STRANGERS)
  {
    TwoWindowsReachable();
    StepReachable(TWO_WINDOWS, Generating(1, 0, 0x2000));
    GenerateForeign();
    hide Reachable, Inv, Generate;
  }

  lemma StrangersDrain()
    ensures Shaped(STRANGERS.spaces[0].tables) && DrainAll(STRANGERS.spaces[0].tables, [OTHER, RIGHT], 0, [FIRST]).Some?
  {
    var t, ws, l := STRANGERS.spaces[0].tables, [OTHER, RIGHT], [FIRST];
    assert Target(RIGHT, FIRST.page) == 2 && HasPlace(t, 2);
    DrainAllFaultsExactlyWhen(t, ws, 0, l);
  }

  /** Removing an object from a map takes away a page of another object. */
  lemma RemovalHitsStranger()
    ensures Reachable(STRANGERS) && Inv(STRANGERS)
    ensures RemoveObject(STRANGERS, 0, 0).Some? && !Inv(RemoveObject(STRANGERS, 0, 0).value)
  {
    StrangersReachable();
    var s, l := STRANGERS, [FIRST];
    var ws := s.spaces[0].windows;
    assert ws[0] == OTHER && ws[1] == RIGHT && OTHER in ws && RIGHT in ws;
    assert l[0] in l && Target(RIGHT, l[0].page) == 2 && Hits(RIGHT, l, 2) && HitsAny(ws, 0, l, 2);
    assert OTHER.Has(2) && Entry(s.spaces[0].tables, 2) == Some(0x2000);
    assert !RemovalSparesOthers(s, 0, 0);
    StrangersDrain();
    hide Inv, Reachable;
    RemoveObjectKeepsExactlyWhen(s, 0, 0);
  }

  // ---- A window whose addresses wrap -------------------------------------------------------------------------

  const HIGH := Window(0, 0, 0x80000, 0x80000, 1, 1)
  const MIDDLE := Resident(0x80000, 0x1000)

  /** A window at 2 GiB on the page at 2 GiB of an object: the page is generated and not mapped, and every later fault
      reports success and changes nothing. */
  lemma WrappingWindowStaysDark(frame: int)
    ensures var s := System(map[0 := Object([], 0x80001, [HIGH])], map[0 := Space(map[], [HIGH])]);
            var s' := System(map[0 := Object([MIDDLE], 0x80001, [HIGH])], map[0 := Space(map[], [HIGH])]);
            var s0 := System(map[0 := Object([], 0x80001, [])], map[0 := Space(map[], [])]);
            && Linked(s0) && Fits(s0.spaces, HIGH) && AddObject(s0, HIGH) == s
            && Linked(s) && ResolveFault(s, 0, 0x80000, 0x1000) == (s', true)
            && Linked(s') && ResolveFault(s', 0, 0x80000, frame) == (s', true)
            && Entry(s'.spaces[0].tables, 0x80000) == None
  {
    var s := System(map[0 := Object([], 0x80001, [HIGH])], map[0 := Space(map[], [HIGH])]);
    var s' := System(map[0 := Object([MIDDLE], 0x80001, [HIGH])], map[0 := Space(map[], [HIGH])]);
    assert [HIGH] + [] == [HIGH];
    assert LinkedToObject(s.objects, 0, HIGH) && LinkedToSpace(s.spaces, 0, HIGH) && HIGH.PageOf(0x80000) == 0x80000;
    assert LinkedToObject(s'.objects, 0, HIGH) && FirstWindow([HIGH], 0x80000) == 0;
    assert Target(HIGH, 0x80000) == -0x80000;
    ShowOutside(map[], HIGH, MIDDLE);
    assert ShowAll(s.spaces, [HIGH], MIDDLE) == s.spaces by {
      assert [HIGH][1..] == [] && s.spaces[0 := Space(map[], [HIGH])] == s.spaces;
    }
    assert [][..0] + [MIDDLE] + [][0..] == [MIDDLE];
    assert Generate(s, 0, 0x80000, 0x1000) == s';
    assert Place([MIDDLE], 0x80000) == 0;
  }
}
