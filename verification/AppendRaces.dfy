/**
Several CPUs append to the kernel's address space at once. `kinstall_append` of src/mem/page.cpp holds `kmem::mutex` for
one run at a time, so the runs of other chains can come between the runs of a chain; each run lands where the one before
it, whoever installed that, has ended.
*/
module AppendRaces {
  import opened Wrappers
  import opened Intervals
  import opened KernelSlots

  /** A run as it is appended under the mutex: one of the chain in question, or somebody else's. */
  datatype Turn = Mine(run: Run) | Other(run: Run)

  function AllRuns(xs: seq<Turn>): seq<Run> {
    if xs == [] then [] else [xs[0].run] + AllRuns(xs[1..])
  }

  function MyRuns(xs: seq<Turn>): seq<Run> {
    if xs == [] then [] else (if xs[0].Mine? then [xs[0].run] else []) + MyRuns(xs[1..])
  }

  /** Where the runs of the chain land. */
  function MyPlaces(top: int, xs: seq<Turn>): (r: seq<int>)
    ensures |r| == |MyRuns(xs)|
    decreases |xs|
  {
    if xs == [] then [] else (if xs[0].Mine? then [top] else []) + MyPlaces(top + xs[0].run.pages, xs[1..])
  }

  /** Page v belongs to somebody else's run. */
  predicate OtherHas(top: int, xs: seq<Turn>, v: int)
    decreases |xs|
  {
    xs != [] && ((xs[0].Other? && top <= v < top + xs[0].run.pages) || OtherHas(top + xs[0].run.pages, xs[1..], v))
  }

  predicate NoEmptyTurn(xs: seq<Turn>) {
    forall i :: 0 <= i < |xs| ==> xs[i].run.pages > 0
  }

  /** Nobody else's turn comes between two turns of the chain. */
  predicate Undisturbed(xs: seq<Turn>) {
    forall a, b, c :: 0 <= a < b < c < |xs| && xs[a].Mine? && xs[c].Mine? ==> xs[b].Mine?
  }

  predicate Contiguous(at: seq<int>, runs: seq<Run>)
    requires |at| == |runs|
  {
    forall i :: 0 <= i < |at| - 1 ==> at[i + 1] == at[i] + runs[i].pages
  }

  lemma {:induction false} NoneOfMine(xs: seq<Turn>)
    requires MyRuns(xs) == []
    ensures forall i :: 0 <= i < |xs| ==> xs[i].Other?
  {
    if xs != [] {
      NoneOfMine(xs[1..]);
      assert forall i :: 0 < i < |xs| ==> xs[i] == xs[1..][i - 1];
    }
  }

  lemma {:induction false} SomeOfMine(xs: seq<Turn>) returns (c: nat)
    requires MyRuns(xs) != []
    ensures c < |xs| && xs[c].Mine?
  {
    if xs[0].Mine? { c := 0; } else { var d := SomeOfMine(xs[1..]); c := d + 1; }
  }

  /** The first place is where we started exactly when the first turn is ours. */
  lemma {:induction false} FirstPlace(top: int, xs: seq<Turn>)
    requires NoEmptyTurn(xs) && MyRuns(xs) != []
    ensures MyPlaces(top, xs)[0] >= top && (MyPlaces(top, xs)[0] == top <==> xs[0].Mine?)
    decreases |xs|
  {
    if xs[0].Other? { FirstPlace(top + xs[0].run.pages, xs[1..]); }
  }

  /** The same condition, turn by turn. */
  lemma UndisturbedStep(xs: seq<Turn>)
    requires xs != []
    ensures xs[0].Other? ==> (Undisturbed(xs) <==> Undisturbed(xs[1..]))
    ensures xs[0].Mine? && MyRuns(xs[1..]) == [] ==> Undisturbed(xs)
    ensures xs[0].Mine? && MyRuns(xs[1..]) != [] ==> (Undisturbed(xs) <==> xs[1].Mine? && Undisturbed(xs[1..]))
  {
    var rest := xs[1..];
    assert forall i :: 0 < i < |xs| ==> xs[i] == rest[i - 1];
    assert forall i :: 0 <= i < |rest| ==> rest[i] == xs[i + 1];
    if MyRuns(rest) == [] {
      NoneOfMine(rest);
    } else {
      var c := SomeOfMine(rest);
      if xs[0].Mine? { UndisturbedFrom(xs, c + 1); }
    }
    if Undisturbed(xs) {
      forall a, b, c | 0 <= a < b < c < |rest| && rest[a].Mine? && rest[c].Mine? ensures rest[b].Mine? {
        assert xs[a + 1].Mine? && xs[c + 1].Mine? && xs[b + 1] == rest[b];
      }
    }
  }

  lemma UndisturbedFrom(xs: seq<Turn>, c: nat)
    requires 0 < c < |xs| && xs[0].Mine? && xs[c].Mine?
    ensures Undisturbed(xs) <==> xs[1].Mine? && Undisturbed(xs[1..])
  {
    var rest := xs[1..];
    if Undisturbed(xs) {
      assert xs[1].Mine? by { if c > 1 { assert 0 < 1 < c; } }
      forall a, b, d | 0 <= a < b < d < |rest| && rest[a].Mine? && rest[d].Mine? ensures rest[b].Mine? {
        assert xs[a + 1].Mine? && xs[d + 1].Mine? && xs[b + 1] == rest[b];
      }
    } else if xs[1].Mine? && Undisturbed(rest) {
      forall a, b, d | 0 <= a < b < d < |xs| && xs[a].Mine? && xs[d].Mine? ensures xs[b].Mine? {
        if b > 1 { assert rest[if a == 0 then 0 else a - 1].Mine? && rest[d - 1].Mine? && rest[b - 1] == xs[b]; }
      }
    }
  }

  /** A chain lands in one piece exactly when no run of another chain comes between two of its runs. */
  lemma {:induction false} ContiguousExactlyWhen(top: int, xs: seq<Turn>)
    requires NoEmptyTurn(xs)
    ensures Contiguous(MyPlaces(top, xs), MyRuns(xs)) <==> Undisturbed(xs)
    decreases |xs|
  {
    hide *;
    if xs == [] {
      NoTurns(top);
      OneIsContiguous([], []);
    } else {
      var rest, top' := xs[1..], top + xs[0].run.pages;
      MyStep(top, xs);
      UndisturbedStep(xs);
      ContiguousExactlyWhen(top', rest);
      if xs[0].Mine? && MyRuns(rest) == [] {
        OneIsContiguous(MyPlaces(top, xs), MyRuns(xs));
      } else if xs[0].Mine? {
        FirstPlace(top', rest);
        ContiguousStep(MyPlaces(top', rest), MyRuns(rest), top, xs[0].run);
      }
    }
  }

  lemma NoTurns(top: int)
    ensures MyPlaces(top, []) == [] && MyRuns([]) == [] && Undisturbed([])
  {
  }

  lemma MyStep(top: int, xs: seq<Turn>)
    requires xs != []
    ensures var rest, top' := xs[1..], top + xs[0].run.pages;
            if xs[0].Mine? then MyPlaces(top, xs) == [top] + MyPlaces(top', rest) && MyRuns(xs) == [xs[0].run] + MyRuns(rest)
            else MyPlaces(top, xs) == MyPlaces(top', rest) && MyRuns(xs) == MyRuns(rest)
    ensures NoEmptyTurn(xs) ==> NoEmptyTurn(xs[1..])
    ensures MyRuns(xs[1..]) != [] ==> |xs| > 1 && xs[1] == xs[1..][0]
  {
  }

  lemma OneIsContiguous(at: seq<int>, runs: seq<Run>)
    requires |at| == |runs| <= 1
    ensures Contiguous(at, runs)
  {
  }

  lemma ContiguousStep(at: seq<int>, runs: seq<Run>, top: int, run: Run)
    requires |at| == |runs| > 0
    ensures Contiguous([top] + at, [run] + runs) <==> at[0] == top + run.pages && Contiguous(at, runs)
  {
    var at', runs' := [top] + at, [run] + runs;
    if Contiguous(at', runs') {
      assert at'[1] == at'[0] + runs'[0].pages;
      forall i | 0 <= i < |at| - 1 ensures at[i + 1] == at[i] + runs[i].pages {
        assert at'[i + 2] == at'[i + 1] + runs'[i + 1].pages;
      }
    }
    if at[0] == top + run.pages && Contiguous(at, runs) {
      forall i | 0 <= i < |at'| - 1 ensures at'[i + 1] == at'[i] + runs'[i].pages {
        if i > 0 { assert at[i] == at[i - 1] + runs[i - 1].pages; }
      }
    }
  }

  // ---- Uninstalling the chain -----------------------------------------------------------

  lemma {:induction false} OthersBeyond(top: int, xs: seq<Turn>, v: int)
    requires OtherHas(top, xs, v)
    ensures top <= v < top + Pages(AllRuns(xs))
    decreases |xs|
  {
    if !(xs[0].Other? && top <= v < top + xs[0].run.pages) { OthersBeyond(top + xs[0].run.pages, xs[1..], v); }
  }

  lemma {:induction false} MyRunsFilled(xs: seq<Turn>)
    requires NoEmptyTurn(xs)
    ensures NoneEmpty(MyRuns(xs)) && NoneEmpty(AllRuns(xs))
  {
    if xs != [] { MyRunsFilled(xs[1..]); }
  }

  /** A page of somebody else's among the pages that `kuninstall` clears, from the first place of the chain on. */
  ghost predicate TakesOther(top: int, xs: seq<Turn>)
    requires MyRuns(xs) != []
  {
    exists v :: OtherHas(top, xs, v) && MyPlaces(top, xs)[0] <= v < MyPlaces(top, xs)[0] + Pages(MyRuns(xs))
  }

  lemma {:induction false} TakesOtherExactlyWhen(top: int, xs: seq<Turn>)
    requires NoEmptyTurn(xs) && MyRuns(xs) != []
    ensures TakesOther(top, xs) <==> !Undisturbed(xs)
    decreases |xs|
  {
    var rest, top' := xs[1..], top + xs[0].run.pages;
    UndisturbedStep(xs);
    hide Undisturbed;
    if xs[0].Other? {
      FirstPlace(top', rest);
      TakesOtherExactlyWhen(top', rest);
      TakesLater(top, xs);
    } else if MyRuns(rest) == [] {
      assert MyRuns(xs) == [xs[0].run] && Pages(MyRuns(rest)) == 0;
      forall v | OtherHas(top, xs, v) ensures v >= top' { OthersBeyond(top', rest, v); }
    } else if xs[1].Other? {
      MyRunsFilled(rest);
      PagesPositive(MyRuns(rest));
      assert rest[0] == xs[1] && OtherHas(top', rest, top') && OtherHas(top, xs, top');
    } else {
      FirstPlace(top', rest);
      TakesOtherExactlyWhen(top', rest);
      TakesLater(top, xs);
    }
  }

  lemma TakesLater(top: int, xs: seq<Turn>)
    requires xs != [] && NoEmptyTurn(xs) && MyRuns(xs[1..]) != [] && (xs[0].Mine? ==> xs[1].Mine?)
    ensures TakesOther(top, xs) <==> TakesOther(top + xs[0].run.pages, xs[1..])
  {
    var rest, top' := xs[1..], top + xs[0].run.pages;
    var at, at' := MyPlaces(top, xs)[0], MyPlaces(top', rest)[0];
    var end, end' := at + Pages(MyRuns(xs)), at' + Pages(MyRuns(rest));
    FirstPlace(top', rest);
    if xs[0].Mine? {
      assert MyRuns(xs)[0] == xs[0].run && MyRuns(xs)[1..] == MyRuns(rest) && at == top && rest[0] == xs[1];
    } else {
      assert MyRuns(xs) == MyRuns(rest) && MyPlaces(top, xs) == MyPlaces(top', rest);
    }
    assert end == end' && at <= at';
    hide Pages, MyRuns;
    if v :| OtherHas(top, xs, v) && at <= v < end {
      assert OtherHas(top', rest, v);
      OthersBeyond(top', rest, v);
    }
    if v :| OtherHas(top', rest, v) && at' <= v < end' {
      assert OtherHas(top, xs, v);
    }
  }

  /** Appending is laying the runs one behind the other, whoever they belong to. */
  lemma {:induction false} AppendedTable(s: Space, chain: seq<Run>)
    requires chain != [] && AppendChain(s, chain).Some?
    ensures AppendChain(s, chain).value.space.table == MappedChain(s.table, s.top, chain)
    decreases |chain|
  {
    assert Mapped(s.table, s.top, chain[0].frame, 0) == s.table;
    hide Mapped;
    AppendChainStep(s, chain);
    MappedChainStep(s.table, s.top, chain);
    var first := Append(s, chain[0].frame, chain[0].pages).value;
    if |chain| == 1 {
      MappedChainStep(first.space.table, first.space.top, chain[1..]);
    } else {
      AppendedTable(first.space, chain[1..]);
    }
  }

  ghost predicate AllMapped(top: int, xs: seq<Turn>, table: map<int, int>) {
    forall v :: OtherHas(top, xs, v) ==> v in table
  }

  lemma OtherCleared(s: Space, xs: seq<Turn>, at: int, mine: seq<Run>, v: int)
    requires AllRuns(xs) != [] && AppendChain(s, AllRuns(xs)).Some? && OtherHas(s.top, xs, v)
    ensures var u := UninstallChain(AppendChain(s, AllRuns(xs)).value.space, at, mine);
            v in u.table <==> !(at <= v < at + Pages(mine))
  {
    hide *;
    var all := AppendChain(s, AllRuns(xs)).value.space;
    OthersBeyond(s.top, xs, v);
    AppendedTable(s, AllRuns(xs));
    MappedChainIs(s.table, s.top, AllRuns(xs), v);
    UninstallChainTable(all, at, mine, v);
  }

  /** `kuninstall` of the chain, from where its first run landed, leaves every page of the others mapped exactly when
      nobody came between its runs. */
  lemma UninstallSparesOthersExactlyWhen(s: Space, xs: seq<Turn>)
    requires NoEmptyTurn(xs) && MyRuns(xs) != [] && AllRuns(xs) != [] && AppendChain(s, AllRuns(xs)).Some?
    ensures var u := UninstallChain(AppendChain(s, AllRuns(xs)).value.space, MyPlaces(s.top, xs)[0], MyRuns(xs));
            AllMapped(s.top, xs, u.table) <==> Undisturbed(xs)
  {
    hide *;
    var mine, at := MyRuns(xs), MyPlaces(s.top, xs)[0];
    var u := UninstallChain(AppendChain(s, AllRuns(xs)).value.space, at, mine);
    TakesOtherExactlyWhen(s.top, xs);
    forall v | OtherHas(s.top, xs, v) ensures v in u.table <==> !(at <= v < at + Pages(mine)) {
      OtherCleared(s, xs, at, mine, v);
    }
    SparedMeans(s.top, xs, u.table);
  }

  lemma SparedMeans(top: int, xs: seq<Turn>, table: map<int, int>)
    requires MyRuns(xs) != []
    requires var at := MyPlaces(top, xs)[0];
             forall v :: OtherHas(top, xs, v) ==> (v in table <==> !(at <= v < at + Pages(MyRuns(xs))))
    ensures AllMapped(top, xs, table) <==> !TakesOther(top, xs)
  {
    hide OtherHas, MyPlaces, MyRuns, Pages;
  }

  /** Two runs with somebody else's between them: uninstalling the two unmaps that one. */
  lemma InterruptedChain()
    ensures var s, xs := Space([], BOTTOM, map[]), [Mine(Run(0x400000, 1)), Other(Run(0x500000, 1)), Mine(Run(0x600000, 1))];
            && AllRuns(xs) != [] && MyRuns(xs) != [] && AppendChain(s, AllRuns(xs)).Some?
            && var u := UninstallChain(AppendChain(s, AllRuns(xs)).value.space, MyPlaces(s.top, xs)[0], MyRuns(xs));
               !AllMapped(s.top, xs, u.table)
  {
    var a, b, c := Run(0x400000, 1), Run(0x500000, 1), Run(0x600000, 1);
    var s, xs := Space([], BOTTOM, map[]), [Mine(a), Other(b), Mine(c)];
    var mid, last := [Other(b), Mine(c)], [Mine(c)];
    assert xs[1..] == mid && mid[1..] == last && last[1..] == [];
    assert AllRuns(last) == [c] && AllRuns(mid) == [b] + AllRuns(last) && AllRuns(xs) == [a] + ([b] + [c]);
    assert MyRuns(last) == [c] && MyRuns(mid) == [] + MyRuns(last) && MyRuns(xs) == [a] + [c];
    assert [a] + ([b] + [c]) == [a, b, c] && [a, b, c][1..] == [b, c] && [b, c][1..] == [c] && [c][1..] == [];
    assert Pages([c]) == 1 && Pages([b, c]) == 2 && Pages([a, b, c]) == 3;
    AppendFits(s, [a, b, c]);
    assert xs[0].Mine? && xs[2].Mine? && !xs[1].Mine? && !Undisturbed(xs);
    hide AppendChain, UninstallChain, MyRuns, AllRuns, MyPlaces, AllMapped;
    UninstallSparesOthersExactlyWhen(s, xs);
  }

  lemma {:induction false} AppendFits(s: Space, chain: seq<Run>)
    requires chain != [] && s.top + Pages(chain) <= LAST_PAGE
    ensures AppendChain(s, chain).Some?
    decreases |chain|
  {
    hide Mapped;
    if |chain| > 1 { AppendFits(Append(s, chain[0].frame, chain[0].pages).value.space, chain[1..]); }
  }
}
