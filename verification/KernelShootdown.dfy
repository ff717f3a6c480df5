/**
Kernel translations: `page::invlpg` of src/mem/page.cpp broadcasts an invalidation to every CPU, and only `kuninstall`
needs it. Kernel pages are mapped on every CPU whatever address space it is in, so nobody owns them.

All changes to the kernel tables are made under `kmem::mutex`, so at most one is in progress. A CPU serves a broadcast at
the moment its handler runs; that it has run when the sender goes on is the mailbox guarantee proved in TlbShootdown.
A processor caches present entries only.
*/
module KernelShootdown {
  import opened Wrappers

  type Cpu = nat
  type Page = int
  type Frame = int

  /** The holder of `kmem::mutex` has cleared this page's entry and these CPUs have not dropped it yet. */
  datatype Clearing = Clearing(page: Page, waiting: set<Cpu>)

  /** `table` holds the present entries of the kernel page tables. */
  datatype State = State(tlbs: seq<map<Page, Frame>>, table: map<Page, Frame>, clearing: Option<Clearing>)

  datatype Event =
    | Fill(c: Cpu, p: Page)          // the CPU walks the tables and caches what it finds
    | Drop(c: Cpu, p: Page)          // eviction, or an invalidation of any other address
    | Reload(c: Cpu)                 // CR3 is loaded
    | Install(p: Page, f: Frame)     // kinstall and kinstall_append: store an entry, tell nobody
    | Clear(p: Page)                 // kuninstall: clear an entry, begin the broadcast
    | Serve(c: Cpu)                  // invlpg on this CPU, or its handler for the command
    | Finish                         // invlpg returns

  /** The CPUs `send_command_all` and the local invalidation reach between them. */
  function FirstCpus(n: nat): (r: set<Cpu>)
    ensures forall c: Cpu :: c in r <==> c < n
  {
    if n == 0 then {} else FirstCpus(n - 1) + {n - 1}
  }

  predicate Enabled(s: State, e: Event) {
    match e
    case Fill(c, p) => c < |s.tlbs| && p in s.table
    case Drop(c, _) => c < |s.tlbs|
    case Reload(c) => c < |s.tlbs|
    case Install(p, f) => s.clearing == None
    case Clear(p) => s.clearing == None
    case Serve(c) => s.clearing.Some? && c < |s.tlbs|
    case Finish => s.clearing.Some? && s.clearing.value.waiting == {}
  }

  function Apply(s: State, e: Event): State
    requires Enabled(s, e)
  {
    match e
    case Fill(c, p) => s.(tlbs := s.tlbs[c := s.tlbs[c][p := s.table[p]]])
    case Drop(c, p) => s.(tlbs := s.tlbs[c := s.tlbs[c] - {p}])
    case Reload(c) => s.(tlbs := s.tlbs[c := map[]])
    case Install(p, f) => s.(table := s.table[p := f])
    case Clear(p) => s.(table := s.table - {p}, clearing := Some(Clearing(p, FirstCpus(|s.tlbs|))))
    case Serve(c) =>
      var x := s.clearing.value;
      s.(tlbs := s.tlbs[c := s.tlbs[c] - {x.page}], clearing := Some(x.(waiting := x.waiting - {c})))
    case Finish => s.(clearing := None)
  }

  /** A translation a CPU holds is the current one, or it has yet to be told to drop it. */
  predicate Current(s: State, c: Cpu, p: Page)
    requires c < |s.tlbs| && p in s.tlbs[c]
  {
    || (p in s.table && s.table[p] == s.tlbs[c][p])
    || (s.clearing.Some? && s.clearing.value.page == p && c in s.clearing.value.waiting)
  }

  ghost predicate Inv(s: State) {
    && (forall c, p :: 0 <= c < |s.tlbs| && p in s.tlbs[c] ==> Current(s, c, p))
    && (s.clearing.Some? ==> s.clearing.value.page !in s.table)
  }

  /** A store over a present entry changes the frame only if no CPU has the page cached. */
  predicate Careful(s: State, e: Event) {
    e.Install? && e.p in s.table && s.table[e.p] != e.f ==> forall c :: 0 <= c < |s.tlbs| ==> e.p !in s.tlbs[c]
  }

  lemma StepKeepsInv(s: State, e: Event)
    requires Inv(s) && Enabled(s, e) && Careful(s, e)
    ensures Inv(Apply(s, e))
  {
    var s' := Apply(s, e);
    forall c, p | 0 <= c < |s'.tlbs| && p in s'.tlbs[c] ensures Current(s', c, p) {
      if p in s.tlbs[c] { assert Current(s, c, p); }
    }
  }

  /** `kinstall` tells nobody: a store keeps caches current exactly when it does not put another frame over an entry that some
      CPU has cached. */
  lemma InstallKeepsExactlyWhen(s: State, p: Page, f: Frame)
    requires Inv(s) && Enabled(s, Install(p, f))
    ensures Inv(Apply(s, Install(p, f))) <==> Careful(s, Install(p, f))
  {
    if Careful(s, Install(p, f)) {
      StepKeepsInv(s, Install(p, f));
    } else {
      var c :| 0 <= c < |s.tlbs| && p in s.tlbs[c];
      assert Current(s, c, p);
      assert !Current(Apply(s, Install(p, f)), c, p);
    }
  }

  ghost predicate Run(ss: seq<State>, es: seq<Event>) {
    && |ss| == |es| + 1 && ss[0].clearing == None && (forall c :: 0 <= c < |ss[0].tlbs| ==> ss[0].tlbs[c] == map[])
    && forall i :: 0 <= i < |es| ==> Enabled(ss[i], es[i]) && Careful(ss[i], es[i]) && ss[i + 1] == Apply(ss[i], es[i])
  }

  lemma {:induction false} InvThroughout(ss: seq<State>, es: seq<Event>, n: nat)
    requires Run(ss, es) && n < |ss|
    ensures Inv(ss[n])
  {
    if n > 0 {
      InvThroughout(ss, es, n - 1);
      StepKeepsInv(ss[n - 1], es[n - 1]);
    }
  }

  /** A page is installed and read, and then a chain that does not fit its hole puts another frame over it: the CPU goes on
      using the frame that was there. */
  lemma StaleAfterOverwrite()
    ensures var s0 := State([map[]], map[], None);
            var s1 := Apply(s0, Install(7, 1));
            && Enabled(s1, Fill(0, 7))
            && var s2 := Apply(s1, Fill(0, 7));
               && Run([s0, s1, s2], [Install(7, 1), Fill(0, 7)])
               && Enabled(s2, Install(7, 2)) && !Careful(s2, Install(7, 2))
               && var s3 := Apply(s2, Install(7, 2));
                  s3.tlbs[0] == map[7 := 1] && s3.table == map[7 := 2]
  {
    var s0 := State([map[]], map[], None);
    var s1 := Apply(s0, Install(7, 1));
    var s2 := Apply(s1, Fill(0, 7));
    assert s1 == State([map[]], map[7 := 1], None) && s2 == State([map[7 := 1]], map[7 := 1], None);
    assert 7 in s2.tlbs[0];
  }

  /** In every state of every run, unless the page is being uninstalled at that moment: a kernel translation any CPU holds
      is the one in the table. So after `kuninstall` no CPU has one, and after `kinstall` into the same place every CPU
      that has one has the new one, although the addresses `kinstall` invalidates are physical ones. */
  lemma KernelCachesAreCurrent(ss: seq<State>, es: seq<Event>, n: nat, c: Cpu, p: Page)
    requires Run(ss, es) && n < |ss| && c < |ss[n].tlbs| && p in ss[n].tlbs[c]
    requires !(ss[n].clearing.Some? && ss[n].clearing.value.page == p)
    ensures p in ss[n].table && ss[n].tlbs[c][p] == ss[n].table[p]
  {
    InvThroughout(ss, es, n);
    assert Current(ss[n], c, p);
  }

  /** When the invalidation has returned, nobody holds a translation of the page. */
  lemma UninstalledEverywhere(ss: seq<State>, es: seq<Event>, n: nat, c: Cpu)
    requires Run(ss, es) && n < |es| && es[n] == Finish && c < |ss[n + 1].tlbs|
    ensures ss[n].clearing.Some? && ss[n].clearing.value.page !in ss[n + 1].tlbs[c]
  {
    InvThroughout(ss, es, n);
    var p := ss[n].clearing.value.page;
    assert p in ss[n].tlbs[c] ==> Current(ss[n], c, p);
  }

  // ---- What may change, and by whose step ---------------------------------------------------

  /** A table entry is what was last stored there, until it is cleared. */
  lemma EntryChanges(ss: seq<State>, es: seq<Event>, n: nat, p: Page)
    requires Run(ss, es) && n < |es|
    ensures if es[n].Install? && es[n].p == p then p in ss[n + 1].table && ss[n + 1].table[p] == es[n].f
            else if es[n] == Clear(p) then p !in ss[n + 1].table
            else (p in ss[n + 1].table <==> p in ss[n].table) && (p in ss[n].table ==> ss[n + 1].table[p] == ss[n].table[p])
  {
    assert Enabled(ss[n], es[n]) && ss[n + 1] == Apply(ss[n], es[n]);
  }

  /** A CPU gets a translation only by reading the tables, and what it gets is what they hold. */
  lemma TranslationComes(ss: seq<State>, es: seq<Event>, n: nat, c: Cpu, p: Page)
    requires Run(ss, es) && n < |es| && c < |ss[n].tlbs|
    ensures c < |ss[n + 1].tlbs|
    ensures es[n] == Fill(c, p) ==>
              p in ss[n].table && p in ss[n + 1].tlbs[c] && ss[n + 1].tlbs[c][p] == ss[n].table[p]
    ensures es[n] != Fill(c, p) && p in ss[n + 1].tlbs[c] ==> p in ss[n].tlbs[c] && ss[n + 1].tlbs[c][p] == ss[n].tlbs[c][p]
  {
    assert Enabled(ss[n], es[n]) && ss[n + 1] == Apply(ss[n], es[n]);
  }

  /** It loses one only by dropping it, by loading CR3, or by serving the broadcast for that page. */
  lemma TranslationGoes(ss: seq<State>, es: seq<Event>, n: nat, c: Cpu, p: Page)
    requires Run(ss, es) && n < |es| && c < |ss[n].tlbs| && p in ss[n].tlbs[c]
    ensures c < |ss[n + 1].tlbs|
    ensures p !in ss[n + 1].tlbs[c] <==>
              || es[n] == Drop(c, p) || es[n] == Reload(c)
              || (es[n] == Serve(c) && ss[n].clearing.Some? && ss[n].clearing.value.page == p)
  {
    assert Enabled(ss[n], es[n]) && ss[n + 1] == Apply(ss[n], es[n]);
  }

  /** A broadcast is for every CPU, each serves it once it does, and it ends when none is left. */
  lemma BroadcastGoesRound(ss: seq<State>, es: seq<Event>, n: nat, c: Cpu)
    requires Run(ss, es) && n < |es| && c < |ss[n].tlbs|
    ensures es[n].Clear? ==>
              && ss[n].clearing == None && ss[n + 1].clearing.Some?
              && ss[n + 1].clearing.value.page == es[n].p && c in ss[n + 1].clearing.value.waiting
    ensures ss[n].clearing.Some? ==>
              if es[n].Finish? then ss[n + 1].clearing == None && c !in ss[n].clearing.value.waiting
              else
                && ss[n + 1].clearing.Some? && ss[n + 1].clearing.value.page == ss[n].clearing.value.page
                && (c in ss[n + 1].clearing.value.waiting <==> c in ss[n].clearing.value.waiting && es[n] != Serve(c))
    ensures ss[n].clearing == None && !es[n].Clear? ==> ss[n + 1].clearing == None
  {
    assert Enabled(ss[n], es[n]) && ss[n + 1] == Apply(ss[n], es[n]);
  }
}
