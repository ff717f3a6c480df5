/**
Paths: `parse_path` and `FilePathEntry` of src/fs/filesystem.cpp, over `find` and `substr` of src/structures/utf8.cpp.

A path is a chain of entries linked by `parent`; here it is a sequence, the parent of entry i being entry i - 1 and
entry 0 having none. `populate` gives an ordinary entry its inode, and makes "." and ".." aliases (`ref`) of earlier
entries. The specification is a walk with a stack of directories.
*/
module Filesystem {
  import opened Wrappers

  // ---- Splitting a path -------------------------------------------------------------

  const SLASH: char := '/'
  const NUL: char := '\0'

  predicate Plain(s: string) { SLASH !in s }

  /** No c from position a up to b. */
  predicate Lacks(s: string, c: char, a: nat, b: nat)
    requires a <= b <= |s|
  {
    forall i :: a <= i < b ==> s[i] != c
  }

  /** The first slash, or the length. */
  function FirstSlash(p: string): (k: nat)
    ensures k <= |p| && (k < |p| ==> p[k] == SLASH)
    ensures forall i :: 0 <= i < k ==> p[i] != SLASH
  {
    if p == [] || p[0] == SLASH then 0 else 1 + FirstSlash(p[1..])
  }

  function NonEmpty(name: string): seq<string> { if name == [] then [] else [name] }

  /** The non-empty pieces between slashes. */
  function Components(p: string): seq<string>
    decreases |p|
  {
    var k := FirstSlash(p);
    if k == |p| then NonEmpty(p) else NonEmpty(p[..k]) + Components(p[k + 1..])
  }

  lemma FirstSlashUnique(p: string, k: nat)
    requires k <= |p| && (k < |p| ==> p[k] == SLASH) && (forall i :: 0 <= i < k ==> p[i] != SLASH)
    ensures k == FirstSlash(p)
  {
    var j := FirstSlash(p);
    hide FirstSlash;
    assert !(j < k) && !(k < j);
  }

  lemma ComponentsAtSlash(p: string, k: nat)
    requires k < |p| && p[k] == SLASH && Lacks(p, SLASH, 0, k)
    ensures Components(p) == NonEmpty(p[..k]) + Components(p[k + 1..])
  {
    FirstSlashUnique(p, k);
  }

  lemma Slices(p: string, q: string, k: nat)
    requires k <= |p|
    ensures var whole := p + [SLASH] + q;
            && whole[..k] == p[..k] && (k < |p| ==> whole[k + 1..] == p[k + 1..] + [SLASH] + q)
            && whole[|p| + 1..] == q && whole[..|p|] == p
  {
  }

  /** What the first slash of p, or the one after it, leaves to be parsed. */
  lemma SlashAfter(p: string, q: string, k: nat)
    requires k == FirstSlash(p)
    ensures Components(p + [SLASH] + q)
         == NonEmpty(p[..k]) + Components(if k < |p| then p[k + 1..] + [SLASH] + q else q)
  {
    var whole := p + [SLASH] + q;
    forall i | 0 <= i < k ensures whole[i] != SLASH {
      assert whole[i] == p[i];
    }
    ComponentsAtSlash(whole, k);
    Slices(p, q, k);
  }

  lemma Regroup(a: seq<string>, b: seq<string>, c: seq<string>)
    ensures a + (b + c) == a + b + c
  {
  }

  /** Parsing is compositional. */
  lemma {:induction false} ComponentsJoin(p: string, q: string)
    ensures Components(p + [SLASH] + q) == Components(p) + Components(q)
    decreases |p|
  {
    var k := FirstSlash(p);
    hide *;
    if k == |p| {
      JoinPlain(p, q);
    } else {
      ComponentsJoin(p[k + 1..], q);
      JoinSlashed(p, q, k);
    }
  }

  lemma JoinPlain(p: string, q: string)
    requires FirstSlash(p) == |p|
    ensures Components(p + [SLASH] + q) == Components(p) + Components(q)
  {
    SlashAfter(p, q, |p|);
    assert p[..|p|] == p;
  }

  lemma JoinSlashed(p: string, q: string, k: nat)
    requires k == FirstSlash(p) && k < |p|
    requires Components(p[k + 1..] + [SLASH] + q) == Components(p[k + 1..]) + Components(q)
    ensures Components(p + [SLASH] + q) == Components(p) + Components(q)
  {
    hide *;
    SlashAfter(p, q, k);
    ComponentsSplit(p, k);
    GroupNames(NonEmpty(p[..k]), Components(p[k + 1..]), Components(q),
               Components(p), Components(p[k + 1..] + [SLASH] + q), Components(p + [SLASH] + q));
  }

  lemma ComponentsSplit(p: string, k: nat)
    requires k == FirstSlash(p) && k < |p|
    ensures Components(p) == NonEmpty(p[..k]) + Components(p[k + 1..])
  {
  }

  lemma GroupNames(a: seq<string>, b: seq<string>, c: seq<string>, ab: seq<string>, bc: seq<string>, abc: seq<string>)
    requires ab == a + b && bc == b + c && abc == a + bc
    ensures abc == ab + c
  {
  }

  lemma ComponentsPlain(name: string)
    requires Plain(name)
    ensures Components(name) == NonEmpty(name)
  {
    assert FirstSlash(name) == |name|;
  }

  predicate AllNames(cs: seq<string>) {
    forall i :: 0 <= i < |cs| ==> cs[i] != [] && Plain(cs[i])
  }

  lemma {:induction false} ComponentsAreNames(p: string)
    ensures AllNames(Components(p))
    decreases |p|
  {
    var k := FirstSlash(p);
    if k < |p| { ComponentsAreNames(p[k + 1..]); }
  }

  function Joined(cs: seq<string>): string {
    if cs == [] then [] else Joined(cs[..|cs| - 1]) + [SLASH] + cs[|cs| - 1]
  }

  /** Any list of names can be written as a path and is read back unchanged. */
  lemma {:induction false} SplitUndoesJoin(cs: seq<string>)
    requires AllNames(cs)
    ensures Components(Joined(cs)) == cs
  {
    if cs == [] {
      assert FirstSlash([]) == 0;
    } else {
      var front, last := cs[..|cs| - 1], cs[|cs| - 1];
      SplitUndoesJoin(front);
      ComponentsJoin(Joined(front), last);
      ComponentsPlain(last);
      assert front + [last] == cs;
    }
  }

  // ---- Entries --------------------------------------------------------------------------

  type InodeNo = nat

  datatype Child = Child(name: string, inode: InodeNo)

  datatype Inode = Inode(directory: bool, children: seq<Child>)

  /** The inodes that can be read; a directory may list others. */
  type Files = map<InodeNo, Inode>

  datatype Entry = Entry(name: string, ref: Option<nat>, inode: Option<InodeNo>)

  type Chain = seq<Entry>

  function Fresh(names: seq<string>): (r: Chain)
    ensures |r| == |names| && forall i :: 0 <= i < |r| ==> r[i] == Entry(names[i], None, None)
  {
    seq(|names|, i requires 0 <= i < |names| => Entry(names[i], None, None))
  }

  /** Unpopulated entries below a base. */
  function Below(base: Chain, names: seq<string>): Chain {
    base + Fresh(names)
  }

  /** What `parse_path` returns. */
  function Parsed(base: Chain, path: string): Chain {
    Below(base, Components(path))
  }

  /** Parsing p + "/" + q from a base is parsing q from the result of parsing p. */
  lemma ParseComposes(base: Chain, p: string, q: string)
    ensures Parsed(base, p + [SLASH] + q) == Parsed(Parsed(base, p), q)
  {
    ComponentsJoin(p, q);
    hide Components;
    BelowTwice(base, Components(p), Components(q));
  }

  lemma BelowTwice(base: Chain, a: seq<string>, b: seq<string>)
    ensures Below(base, a + b) == Below(Below(base, a), b)
  {
    assert Fresh(a + b) == Fresh(a) + Fresh(b);
    hide Fresh;
    assert base + (Fresh(a) + Fresh(b)) == base + Fresh(a) + Fresh(b);
  }

  /** Aliases lead to strictly earlier entries. */
  predicate RefsBack(es: Chain) {
    forall i :: 0 <= i < |es| && es[i].ref.Some? ==> es[i].ref.value < i
  }

  /** `get_inode` */
  function GetInode(es: Chain, i: nat): Option<InodeNo>
    requires RefsBack(es) && i < |es|
    decreases i
  {
    if es[i].ref.Some? then GetInode(es, es[i].ref.value) else es[i].inode
  }

  /** `logical_parent` */
  function LogicalParent(es: Chain, i: nat): (p: nat)
    requires RefsBack(es) && i < |es|
    ensures p <= i && (i > 0 ==> p < i)
    decreases i
  {
    if es[i].ref.Some? then LogicalParent(es, es[i].ref.value) else if i == 0 then 0 else i - 1
  }

  // ---- The specification: a stack of inodes -----------------------------------------------

  /** `Unread`: the inode is listed and reading it fails. The code the source then returns was never set, so nothing is
      known about it; the model has this value of its own for it. */
  datatype Error = NotDirectory | NoEntry | Unread

  /** Where a walk ends: at the top of a stack, or with an error blamed on an entry of the path. */
  datatype Walk = At(stack: seq<InodeNo>) | Failed(error: Error, blame: nat)

  function Popped(stack: seq<InodeNo>): seq<InodeNo> {
    if |stack| > 1 then stack[..|stack| - 1] else stack
  }

  /** The first child of that name. */
  function Find(children: seq<Child>, name: string): Option<InodeNo> {
    if children == [] then None
    else if children[0].name == name then Some(children[0].inode)
    else Find(children[1..], name)
  }

  /** The k-th child is the first of that name. */
  predicate IsFirst(children: seq<Child>, name: string, k: int) {
    0 <= k < |children| && children[k].name == name && forall j :: 0 <= j < k ==> children[j].name != name
  }

  /** n is the inode of the first child of that name. */
  ghost predicate FirstChild(children: seq<Child>, name: string, n: InodeNo) {
    exists k: int :: IsFirst(children, name, k) && children[k].inode == n
  }

  predicate NoChild(children: seq<Child>, name: string) {
    forall k :: 0 <= k < |children| ==> children[k].name != name
  }

  /** The lookup finds a child exactly when it is the first of that name, and nothing exactly when none has the name. */
  lemma {:induction false} FindIsFirst(children: seq<Child>, name: string, n: InodeNo)
    ensures Find(children, name) == Some(n) <==> FirstChild(children, name, n)
    ensures Find(children, name) == None <==> NoChild(children, name)
  {
    if children != [] {
      var rest := children[1..];
      FindIsFirst(rest, name, n);
      if children[0].name == name {
        assert IsFirst(children, name, 0);
      } else {
        if FirstChild(rest, name, n) {
          var k: int :| IsFirst(rest, name, k) && rest[k].inode == n;
          assert IsFirst(children, name, k + 1);
        }
        if FirstChild(children, name, n) {
          var k: int :| IsFirst(children, name, k) && children[k].inode == n;
          assert IsFirst(rest, name, k - 1);
        }
        assert NoChild(children, name) <==> NoChild(rest, name) by {
          assert forall k :: 0 < k < |children| ==> children[k] == rest[k - 1];
          assert forall k :: 0 <= k < |rest| ==> rest[k] == children[k + 1];
        }
      }
    }
  }

  /** One component, the i-th of the path. */
  function WalkOne(fs: Files, stack: seq<InodeNo>, name: string, i: nat): Walk
    requires stack != [] && i > 0
  {
    if name == "." then At(stack)
    else if name == ".." then At(Popped(stack))
    else
      var top := stack[|stack| - 1];
      if top !in fs || !fs[top].directory then Failed(NotDirectory, i - 1)
      else
        match Find(fs[top].children, name)
        case None => Failed(NoEntry, i)
        case Some(child) => if child in fs then At(stack + [child]) else Failed(Unread, i)
  }

  /** The walk along entries 1 to i, starting from the inode of entry 0. */
  function WalkTo(fs: Files, es: Chain, root: InodeNo, i: nat): (w: Walk)
    requires i < |es|
    ensures w.At? ==> w.stack != []
  {
    if i == 0 then At([root])
    else
      var w := WalkTo(fs, es, root, i - 1);
      if w.Failed? then w else WalkOne(fs, w.stack, es[i].name, i)
  }

  // ---- What the names of a path lead to, without the walk --------------------------------------

  /** From the directories of one stack to those of the next by one name: to the first child of that name, to the directory
      above, or nowhere. */
  ghost predicate Leads(fs: Files, stack: seq<InodeNo>, name: string, next: seq<InodeNo>) {
    stack != [] &&
    if name == "." then next == stack
    else if name == ".." then (if |stack| == 1 then next == stack else exists n: InodeNo :: stack == next + [n])
    else
      var top := stack[|stack| - 1];
      top in fs && fs[top].directory
      && exists n: InodeNo :: FirstChild(fs[top].children, name, n) && n in fs && next == stack + [n]
  }

  /** From the root by these names. */
  ghost predicate NamesLead(fs: Files, root: InodeNo, names: seq<string>, stack: seq<InodeNo>)
    decreases |names|
  {
    if names == [] then stack == [root]
    else
      var n := |names| - 1;
      exists mid :: NamesLead(fs, root, names[..n], mid) && Leads(fs, mid, names[n], stack)
  }

  lemma StepLeads(fs: Files, stack: seq<InodeNo>, name: string, i: nat, next: seq<InodeNo>)
    requires stack != [] && i > 0
    ensures WalkOne(fs, stack, name, i) == At(next) <==> Leads(fs, stack, name, next)
  {
    if name == ".." {
      var m := |stack| - 1;
      assert stack == stack[..m] + [stack[m]];
      if n: InodeNo :| stack == next + [n] { assert stack[..m] == next; }
    } else if name != "." {
      var top := stack[|stack| - 1];
      if top in fs && fs[top].directory {
        forall n: InodeNo ensures Find(fs[top].children, name) == Some(n) <==> FirstChild(fs[top].children, name, n) {
          FindIsFirst(fs[top].children, name, n);
        }
        forall n: InodeNo | stack + [n] == next ensures next[|stack|] == n {}
      }
    }
  }

  /** How a step fails: the directory is not one or cannot be read, no child has the name, or the first one that has it cannot
      be read. */
  lemma StepFails(fs: Files, stack: seq<InodeNo>, name: string, i: nat)
    requires stack != [] && i > 0
    ensures var w, top := WalkOne(fs, stack, name, i), stack[|stack| - 1];
            var named := name != "." && name != "..";
            && (w == Failed(NotDirectory, i - 1) <==> named && !(top in fs && fs[top].directory))
            && (w == Failed(NoEntry, i) <==> named && top in fs && fs[top].directory && NoChild(fs[top].children, name))
            && (w == Failed(Unread, i) <==> named && top in fs && fs[top].directory
                                            && exists n: InodeNo :: FirstChild(fs[top].children, name, n) && n !in fs)
            && (w.Failed? ==> w == Failed(NotDirectory, i - 1) || w == Failed(NoEntry, i) || w == Failed(Unread, i))
  {
    var top := stack[|stack| - 1];
    if name != "." && name != ".." && top in fs && fs[top].directory {
      FailsHere(fs, fs[top].children, name);
    }
    hide Find, FirstChild, NoChild;
  }

  lemma FailsHere(fs: Files, children: seq<Child>, name: string)
    ensures Find(children, name) == None <==> NoChild(children, name)
    ensures (exists n: InodeNo :: FirstChild(children, name, n) && n !in fs)
       <==> Find(children, name).Some? && Find(children, name).value !in fs
  {
    forall n: InodeNo ensures (Find(children, name) == Some(n) <==> FirstChild(children, name, n))
                              && (Find(children, name) == None <==> NoChild(children, name)) {
      FindIsFirst(children, name, n);
    }
    FindIsFirst(children, name, 0);
    if Find(children, name).Some? { assert FirstChild(children, name, Find(children, name).value); }
  }

  function Names(es: Chain): seq<string> { seq(|es|, i requires 0 <= i < |es| => es[i].name) }

  /** The walk ends where the names lead. */
  lemma {:induction false} WalkLeads(fs: Files, es: Chain, root: InodeNo, i: nat, stack: seq<InodeNo>)
    requires i < |es|
    ensures WalkTo(fs, es, root, i) == At(stack) <==> NamesLead(fs, root, Names(es)[1..i + 1], stack)
  {
    var names := Names(es)[1..i + 1];
    if i > 0 {
      var w := WalkTo(fs, es, root, i - 1);
      assert names[..i - 1] == Names(es)[1..i] && names[i - 1] == es[i].name;
      forall mid ensures w == At(mid) <==> NamesLead(fs, root, names[..i - 1], mid) { WalkLeads(fs, es, root, i - 1, mid); }
      LastName(fs, root, names, stack, w);
      if w.At? { StepLeads(fs, w.stack, es[i].name, i, stack); }
      hide NamesLead, Leads;
    }
  }

  /** The names lead to the stack of this walk and to no other. */
  ghost predicate OnlyTo(fs: Files, root: InodeNo, names: seq<string>, w: Walk) {
    forall mid :: w == At(mid) <==> NamesLead(fs, root, names, mid)
  }

  lemma OneStack(fs: Files, root: InodeNo, names: seq<string>, mid: seq<InodeNo>, w: Walk)
    requires OnlyTo(fs, root, names, w) && NamesLead(fs, root, names, mid)
    ensures w == At(mid)
  {
  }

  /** The last name leads on from the one stack that the names before it lead to. */
  lemma LastName(fs: Files, root: InodeNo, names: seq<string>, stack: seq<InodeNo>, w: Walk)
    requires names != [] && OnlyTo(fs, root, names[..|names| - 1], w)
    ensures NamesLead(fs, root, names, stack) <==> w.At? && Leads(fs, w.stack, names[|names| - 1], stack)
  {
    var n := |names| - 1;
    var front := names[..n];
    assert front == names[..|names| - 1];
    if NamesLead(fs, root, names, stack) {
      var mid :| NamesLead(fs, root, front, mid) && Leads(fs, mid, names[n], stack);
      OneStack(fs, root, front, mid, w);
    }
    if w.At? { assert NamesLead(fs, root, front, w.stack); }
  }

  /** Down by a name and up again is where one was. */
  lemma UpUndoesDown(fs: Files, stack: seq<InodeNo>, name: string, i: nat, j: nat)
    requires stack != [] && i > 0 && j > 0 && name != "." && name != ".." && WalkOne(fs, stack, name, i).At?
    ensures WalkOne(fs, WalkOne(fs, stack, name, i).stack, "..", j) == At(stack)
  {
    var next := WalkOne(fs, stack, name, i).stack;
    assert next[..|next| - 1] == stack;
  }

  /** When the root can be read, a walk only ever stands on inodes that can be read. */
  lemma {:induction false} WalkStaysReadable(fs: Files, es: Chain, root: InodeNo, i: nat)
    requires root in fs && i < |es|
    ensures var w := WalkTo(fs, es, root, i); w.At? ==> forall n :: n in w.stack ==> n in fs
  {
    if i > 0 { WalkStaysReadable(fs, es, root, i - 1); }
  }

  // ---- What a populated chain means --------------------------------------------------------

  /** Entries up to k have an inode or an alias. */
  predicate Resolved(es: Chain, k: nat) {
    RefsBack(es) && k < |es| && forall j :: 0 <= j <= k && es[j].ref.None? ==> es[j].inode.Some?
  }

  /** The directories above an entry, and its own inode, as its aliases and parents spell them out. */
  function Stack(es: Chain, i: nat): (r: seq<InodeNo>)
    requires Resolved(es, i)
    ensures r != []
    decreases i
  {
    if es[i].ref.Some? then Stack(es, es[i].ref.value)
    else if i == 0 then [es[0].inode.value]
    else Stack(es, i - 1) + [es[i].inode.value]
  }

  lemma {:induction false} InodeIsTop(es: Chain, i: nat)
    requires Resolved(es, i)
    ensures GetInode(es, i) == Some(Stack(es, i)[|Stack(es, i)| - 1])
    decreases i
  {
    if es[i].ref.Some? { InodeIsTop(es, es[i].ref.value); }
  }

  /** `logical_parent` pops the stack, and stays where it is at the root. */
  lemma {:induction false} ParentPops(es: Chain, i: nat)
    requires Resolved(es, i)
    ensures Resolved(es, LogicalParent(es, i)) && Stack(es, LogicalParent(es, i)) == Popped(Stack(es, i))
    decreases i
  {
    if es[i].ref.Some? {
      ParentPops(es, es[i].ref.value);
    } else if i > 0 {
      var below := Stack(es, i - 1);
      assert (below + [es[i].inode.value])[..|below|] == below;
    }
  }

  /** What an entry means depends only on the entries up to it. */
  lemma {:induction false} StackLocal(es: Chain, es': Chain, i: nat)
    requires Resolved(es, i) && RefsBack(es') && i < |es'| && (forall j :: 0 <= j <= i ==> es'[j] == es[j])
    ensures Resolved(es', i) && Stack(es', i) == Stack(es, i)
    decreases i
  {
    if es[i].ref.Some? { StackLocal(es, es', es[i].ref.value); }
    else if i > 0 { StackLocal(es, es', i - 1); }
  }

  lemma {:induction false} WalkLocal(fs: Files, es: Chain, es': Chain, root: InodeNo, i: nat)
    requires i < |es| && i < |es'| && (forall j :: 0 <= j <= i ==> es'[j].name == es[j].name)
    ensures WalkTo(fs, es', root, i) == WalkTo(fs, es, root, i)
  {
    if i > 0 { WalkLocal(fs, es, es', root, i - 1); }
  }

  /** Entries up to k are populated and mean what the walk says; later ones are as they were parsed. */
  ghost predicate Sound(fs: Files, es: Chain, k: nat) {
    && Resolved(es, k) && es[0].ref == None
    && (forall j :: k < j < |es| ==> es[j].ref == None && es[j].inode == None)
    && (forall j :: 0 <= j <= k ==> Resolved(es, j) && WalkTo(fs, es, es[0].inode.value, j) == At(Stack(es, j)))
  }

  lemma WalkFails(fs: Files, es: Chain, root: InodeNo, i: nat)
    requires 0 < i < |es| && WalkTo(fs, es, root, i - 1).Failed?
    ensures WalkTo(fs, es, root, i) == WalkTo(fs, es, root, i - 1)
  {
  }

  /** Unpopulated entries are seen as such. */
  lemma PopulatedIsVisible(fs: Files, es: Chain, k: nat, i: nat)
    requires Sound(fs, es, k) && i < |es|
    ensures GetInode(es, i).Some? <==> i <= k
  {
    if i <= k { InodeIsTop(es, i); }
  }

  /** Parsing below a populated base leaves the base as it was. */
  lemma ParsedStaysSound(fs: Files, base: Chain, path: string)
    requires base != [] && Sound(fs, base, |base| - 1)
    ensures Sound(fs, Parsed(base, path), |base| - 1)
  {
    var es := Parsed(base, path);
    var root := base[0].inode.value;
    hide Stack, WalkTo, Components;
    assert RefsBack(es);
    forall j | 0 <= j < |base| ensures Resolved(es, j) && WalkTo(fs, es, root, j) == At(Stack(es, j)) {
      StackLocal(base, es, j);
      WalkLocal(fs, base, es, root, j);
    }
  }

  // ---- populate -------------------------------------------------------------------------------

  datatype Outcome = Done(es: Chain) | Refused(error: Error, blame: nat)

  /** `populate` once its logical parent `lp` has an inode. */
  function PopulateHere(fs: Files, es: Chain, i: nat, lp: nat): Outcome
    requires RefsBack(es) && 0 < i < |es| && lp < i
  {
    if es[i].name == "." then Done(es[i := es[i].(ref := Some(lp))])
    else if es[i].name == ".." then Done(es[i := es[i].(ref := Some(LogicalParent(es, lp)))])
    else
      match GetInode(es, lp)
      case None => Refused(NotDirectory, i - 1)
      case Some(dir) =>
        if dir !in fs || !fs[dir].directory then Refused(NotDirectory, i - 1)
        else
          match Find(fs[dir].children, es[i].name)
          case None => Refused(NoEntry, i)
          case Some(child) =>
            if child in fs then Done(es[i := es[i].(inode := Some(child))]) else Refused(Unread, i)
  }

  lemma ResolvedNext(es: Chain, es': Chain, i: nat)
    requires 0 < i < |es| == |es'| && Resolved(es, i - 1) && es' == es[i := es'[i]]
    requires if es'[i].ref.Some? then es'[i].ref.value < i else es'[i].inode.Some?
    ensures Resolved(es', i)
  {
  }

  lemma StackUnfolds(es: Chain, i: nat)
    requires 0 < i && Resolved(es, i)
    ensures match es[i].ref
            case Some(j) => Resolved(es, j) && Stack(es, i) == Stack(es, j)
            case None => Resolved(es, i - 1) && Stack(es, i) == Stack(es, i - 1) + [es[i].inode.value]
  {
  }

  /** An alias of an earlier entry means what that entry means. */
  lemma AliasMeans(es: Chain, i: nat, target: nat)
    requires 0 < i < |es| && target < i && Resolved(es, i - 1)
    ensures var es' := es[i := es[i].(ref := Some(target))];
            Resolved(es', i) && Resolved(es, target) && Stack(es', i) == Stack(es, target)
  {
    var es' := es[i := es[i].(ref := Some(target))];
    ResolvedNext(es, es', i);
    assert RefsBack(es') && Resolved(es, target);
    hide Stack, Resolved, RefsBack;
    StackUnfolds(es', i);
    StackLocal(es, es', target);
  }

  /** An entry with an inode lies on top of its parent. */
  lemma ChildMeans(es: Chain, i: nat, child: InodeNo)
    requires 0 < i < |es| && Resolved(es, i - 1) && es[i].ref == None
    ensures var es' := es[i := es[i].(inode := Some(child))];
            Resolved(es', i) && Stack(es', i) == Stack(es, i - 1) + [child]
  {
    var es' := es[i := es[i].(inode := Some(child))];
    ResolvedNext(es, es', i);
    OnParent(es, es', i);
  }

  lemma OnParent(es: Chain, es': Chain, i: nat)
    requires 0 < i < |es| && Resolved(es, i - 1) && Resolved(es', i) && es'[i].ref == None
    requires forall j :: 0 <= j < i ==> es'[j] == es[j]
    ensures Stack(es', i) == Stack(es, i - 1) + [es'[i].inode.value]
  {
    hide Stack;
    StackUnfolds(es', i);
    StackLocal(es, es', i - 1);
  }

  /** Populating the next entry does what the walk does with its name. */
  ghost predicate SameStep(fs: Files, es: Chain, i: nat)
    requires 0 < i < |es| && Resolved(es, i - 1)
  {
    var out, w := PopulateHere(fs, es, i, i - 1), WalkOne(fs, Stack(es, i - 1), es[i].name, i);
    && (out.Done? ==> Resolved(out.es, i) && w == At(Stack(out.es, i)))
    && (out.Refused? ==> w == Failed(out.error, out.blame))
  }

  lemma NextDots(fs: Files, es: Chain, i: nat)
    requires 0 < i < |es| && Resolved(es, i - 1) && (es[i].name == "." || es[i].name == "..")
    ensures SameStep(fs, es, i)
  {
    assert RefsBack(es);
    hide Stack, LogicalParent, Resolved, RefsBack;
    if es[i].name == "." {
      AliasMeans(es, i, i - 1);
    } else {
      ParentPops(es, i - 1);
      AliasMeans(es, i, LogicalParent(es, i - 1));
    }
  }

  lemma NextName(fs: Files, es: Chain, i: nat)
    requires 0 < i < |es| && Resolved(es, i - 1) && es[i].ref == None && es[i].name != "." && es[i].name != ".."
    ensures SameStep(fs, es, i)
  {
    assert RefsBack(es);
    hide Stack, Find, GetInode, Resolved, RefsBack;
    InodeIsTop(es, i - 1);
    var out := PopulateHere(fs, es, i, i - 1);
    if out.Done? { ChildMeans(es, i, out.es[i].inode.value); }
  }

  /** The stack after populating the next entry is the walk's next stack. */
  lemma NextStack(fs: Files, es: Chain, i: nat)
    requires 0 < i < |es| && Resolved(es, i - 1) && es[i].ref == None
    ensures SameStep(fs, es, i)
  {
    hide SameStep, Resolved;
    if es[i].name == "." || es[i].name == ".." { NextDots(fs, es, i); } else { NextName(fs, es, i); }
  }

  /** Populating the next entry extends the populated part by one, or fails as the walk does. */
  lemma PopulateFollowsWalk(fs: Files, es: Chain, i: nat)
    requires 0 < i < |es| && Sound(fs, es, i - 1)
    ensures var out := PopulateHere(fs, es, i, i - 1);
            && (out.Done? ==> Sound(fs, out.es, i) && out.es[0] == es[0])
            && (out.Refused? ==> WalkTo(fs, es, es[0].inode.value, i) == Failed(out.error, out.blame))
  {
    NextStack(fs, es, i);
    var out := PopulateHere(fs, es, i, i - 1);
    assert out.Done? ==> out.es == es[i := out.es[i]] && out.es[i].name == es[i].name;
    hide Stack, WalkOne, PopulateHere;
    if out.Done? { SoundNext(fs, es, out.es, i); }
  }

  lemma SoundNext(fs: Files, es: Chain, es': Chain, i: nat)
    requires 0 < i < |es| == |es'| && Sound(fs, es, i - 1) && es' == es[i := es'[i]] && es'[i].name == es[i].name
    requires Resolved(es', i) && WalkOne(fs, Stack(es, i - 1), es[i].name, i) == At(Stack(es', i))
    ensures Sound(fs, es', i)
  {
    hide Stack, WalkOne;
    var root := es[0].inode.value;
    assert WalkTo(fs, es, root, i - 1) == At(Stack(es, i - 1));
    assert WalkTo(fs, es, root, i) == At(Stack(es', i));
    hide WalkTo;
    forall j | 0 <= j <= i ensures Resolved(es', j) && WalkTo(fs, es', root, j) == At(Stack(es', j)) {
      WalkLocal(fs, es, es', root, j);
      if j < i { StackLocal(es, es', j); }
    }
  }

  /** Populating an entry a second time starts from where its alias leads, not from its parent. So it changes what the
      entry means exactly for "." and ".." entries that are not at the root. */
  lemma RepopulateKeepsExactlyWhen(fs: Files, es: Chain, k: nat, i: nat)
    requires Sound(fs, es, k) && 0 < i <= k && (es[i].ref.Some? <==> es[i].name == "." || es[i].name == "..")
    ensures var out := PopulateHere(fs, es, i, LogicalParent(es, i));
            && out.Done? && Resolved(out.es, i)
            && (Stack(out.es, i) == Stack(es, i) <==> !(es[i].name == "." || es[i].name == "..") || |Stack(es, i)| == 1)
  {
    var lp := LogicalParent(es, i);
    var out := PopulateHere(fs, es, i, lp);
    if es[i].ref.Some? {
      var es' := out.es;
      assert RefsBack(es') && Resolved(es', i);
      ParentPops(es, i);
      StackLocal(es, es', lp);
      if es[i].name == ".." {
        ParentPops(es, lp);
        StackLocal(es, es', LogicalParent(es, lp));
      }
    } else {
      RepopulateOrdinary(fs, es, k, i);
    }
  }

  lemma RepopulateOrdinary(fs: Files, es: Chain, k: nat, i: nat)
    requires Sound(fs, es, k) && 0 < i <= k && es[i].ref == None && es[i].name != "." && es[i].name != ".."
    ensures PopulateHere(fs, es, i, i - 1) == Done(es)
  {
    var below := Stack(es, i - 1);
    InodeIsTop(es, i - 1);
    assert WalkTo(fs, es, es[0].inode.value, i - 1) == At(below);
    assert WalkTo(fs, es, es[0].inode.value, i) == At(below + [es[i].inode.value]);
    assert WalkOne(fs, below, es[i].name, i) == At(below + [es[i].inode.value]);
    SameChild(fs, es, i, below);
  }

  lemma SameChild(fs: Files, es: Chain, i: nat, below: seq<InodeNo>)
    requires RefsBack(es) && 0 < i < |es| && below != [] && GetInode(es, i - 1) == Some(below[|below| - 1])
    requires es[i].inode.Some? && es[i].name != "." && es[i].name != ".."
    requires WalkOne(fs, below, es[i].name, i) == At(below + [es[i].inode.value])
    ensures PopulateHere(fs, es, i, i - 1) == Done(es)
  {
    hide Find, GetInode;
    var child := Find(fs[below[|below| - 1]].children, es[i].name).value;
    assert (below + [child])[|below|] == (below + [es[i].inode.value])[|below|];
    assert es[i := es[i].(inode := Some(child))] == es;
  }

  const TWO_DIRECTORIES: Files := map[0 := Inode(true, [Child("a", 1)]), 1 := Inode(true, [])]
  const ROOT := Entry("", None, Some(0))
  const A_DOT := [ROOT, Entry("a", None, Some(1)), Entry(".", Some(1), None)]

  /** The path "a/." below the root, populated once, is the directory a; populated again, it is the root. */
  lemma DotMovesUp()
    ensures Parsed([ROOT], "a/.") == [ROOT, Entry("a", None, None), Entry(".", None, None)]
    ensures Sound(TWO_DIRECTORIES, A_DOT, 2) && Stack(A_DOT, 2) == [0, 1]
    ensures var again := PopulateHere(TWO_DIRECTORIES, A_DOT, 2, LogicalParent(A_DOT, 2));
            again.Done? && Resolved(again.es, 2) && Stack(again.es, 2) == [0]
  {
    var fs := TWO_DIRECTORIES;
    DotParses();
    var es0 := [ROOT, Entry("a", None, None), Entry(".", None, None)];
    var es1 := [ROOT, Entry("a", None, Some(1)), Entry(".", None, None)];
    assert Sound(fs, es0, 0);
    assert PopulateHere(fs, es0, 1, 0) == Done(es1) by { assert Find(fs[0].children, "a") == Some(1); }
    PopulateFollowsWalk(fs, es0, 1);
    assert PopulateHere(fs, es1, 2, 1) == Done(A_DOT);
    PopulateFollowsWalk(fs, es1, 2);
    assert Stack(A_DOT, 0) == [0] && Stack(A_DOT, 1) == [0] + [1] && Stack(A_DOT, 2) == [0, 1];
    assert LogicalParent(A_DOT, 2) == 0;
    AliasMeans(A_DOT, 2, 0);
  }

  lemma DotParses()
    ensures Parsed([ROOT], "a/.") == [ROOT, Entry("a", None, None), Entry(".", None, None)]
  {
    ComponentsJoin("a", ".");
    ComponentsPlain("a");
    ComponentsPlain(".");
    assert "a" + [SLASH] + "." == "a/." && ["a"] + ["."] == ["a", "."];
    assert Fresh(["a", "."]) == [Entry("a", None, None), Entry(".", None, None)];
  }

  // ---- The code ------------------------------------------------------------------------------

  /** `Utf8::find`: the scan goes on to the terminator. */
  method FindChar(s: string, c: char, from: nat) returns (r: Option<nat>)
    requires from <= |s|
    ensures r == None ==> c != NUL && Lacks(s, c, from, |s|)
    ensures r.Some? ==> from <= r.value <= |s| && (if r.value < |s| then s[r.value] == c else c == NUL)
                        && Lacks(s, c, from, r.value)
  {
    var buffer := s + [NUL];
    var pos := from;
    while pos <= |s|
      invariant from <= pos <= |s| + 1 && (pos == |s| + 1 ==> c != NUL)
      invariant forall i :: from <= i < pos && i < |s| ==> s[i] != c
    {
      if buffer[pos] == c { return Some(pos); }
      pos := pos + 1;
    }
    r := None;
  }

  /** `Utf8::substr`: None is `npos`, the rest of the string. */
  method Substr(s: string, pos: nat, len: Option<nat>) returns (r: string)
    requires pos <= |s|
    ensures r == if len.Some? && pos + len.value <= |s| then s[pos..pos + len.value] else s[pos..]
  {
    var n := |s| - pos;
    if len.Some? && len.value <= n { n := len.value; }
    r := [];
    while |r| < n
      invariant |r| <= n && r == s[pos..pos + |r|]
    {
      r := r + [s[pos + |r|]];
    }
  }

  /** The components from a position on. */
  ghost function Rest(p: string, from: nat): seq<string>
    requires from <= |p|
  {
    Components(p[from..])
  }

  lemma RestStep(p: string, from: nat, pos: nat)
    requires from <= pos < |p| && p[pos] == SLASH && Lacks(p, SLASH, from, pos)
    ensures Rest(p, from) == NonEmpty(p[from..pos]) + Rest(p, pos + 1)
  {
    hide Components, NonEmpty, Lacks, FirstSlash;
    SliceOfSlice(p, from, pos);
    RestParts(p[from..], pos - from, p[from..pos], p[pos + 1..]);
  }

  lemma RestParts(s: string, k: nat, name: string, rest: string)
    requires k < |s| && s[k] == SLASH && Lacks(s, SLASH, 0, k) && s[..k] == name && s[k + 1..] == rest
    ensures Components(s) == NonEmpty(name) + Components(rest)
  {
    hide Components, NonEmpty, Lacks;
    ComponentsAtSlash(s, k);
  }

  lemma SliceOfSlice(p: string, from: nat, pos: nat)
    requires from <= pos < |p| && Lacks(p, SLASH, from, pos)
    ensures var rest, k := p[from..], pos - from;
            && rest[k] == p[pos] && rest[..k] == p[from..pos] && rest[k + 1..] == p[pos + 1..]
            && Lacks(rest, SLASH, 0, k)
  {
    var rest := p[from..];
    forall i | 0 <= i < pos - from ensures rest[i] != SLASH { assert rest[i] == p[from + i]; }
  }

  lemma RestEnd(p: string, from: nat)
    requires from <= |p| && Lacks(p, SLASH, from, |p|)
    ensures Rest(p, from) == NonEmpty(p[from..])
  {
    ComponentsPlain(p[from..]);
  }

  lemma RestStart(p: string)
    ensures Rest(p, 0) == Components(p)
  {
    assert p[0..] == p;
  }

  lemma NameAdded(base: Chain, names: seq<string>, fname: string)
    ensures Below(base, names + NonEmpty(fname))
         == if fname == [] then Below(base, names) else Below(base, names) + [Entry(fname, None, None)]
  {
    if fname == [] {
      assert names + [] == names;
    } else {
      assert Fresh(names + [fname]) == Fresh(names) + [Entry(fname, None, None)];
    }
  }

  /** Parsed up to a position. */
  ghost predicate Parsing(base: Chain, path: string, chain: Chain, at: nat) {
    at <= |path| && exists names :: chain == Below(base, names) && Components(path) == names + Rest(path, at)
  }

  function WithName(chain: Chain, fname: string): Chain {
    if fname == [] then chain else chain + [Entry(fname, None, None)]
  }

  lemma ParsingStarts(base: Chain, path: string)
    ensures Parsing(base, path, base, 0)
  {
    RestStart(path);
    assert base == Below(base, []);
    assert Components(path) == [] + Rest(path, 0);
  }

  lemma ParsingGoesOn(base: Chain, path: string, chain: Chain, at: nat, pos: nat)
    requires Parsing(base, path, chain, at) && at <= pos < |path| && path[pos] == SLASH && Lacks(path, SLASH, at, pos)
    ensures Parsing(base, path, WithName(chain, path[at..pos]), pos + 1)
  {
    var names :| chain == Below(base, names) && Components(path) == names + Rest(path, at);
    var fname := path[at..pos];
    RestStep(path, at, pos);
    hide Below, Components, NonEmpty, Rest, Lacks;
    NameAdded(base, names, fname);
    Regroup(names, NonEmpty(fname), Rest(path, pos + 1));
  }

  lemma ParsingEnds(base: Chain, path: string, chain: Chain, at: nat)
    requires Parsing(base, path, chain, at) && Lacks(path, SLASH, at, |path|)
    ensures WithName(chain, path[at..]) == Parsed(base, path)
  {
    var names :| chain == Below(base, names) && Components(path) == names + Rest(path, at);
    RestEnd(path, at);
    hide Below, Components, NonEmpty, Rest, Lacks;
    NameAdded(base, names, path[at..]);
  }

  /** `parse_path` */
  method ParsePath(path: string, base: Chain) returns (chain: Chain)
    ensures chain == Parsed(base, path)
  {
    chain := base;
    var oldpos := 0;
    hide Parsing, Parsed, Lacks;
    ParsingStarts(base, path);
    var pos := FindChar(path, SLASH, oldpos);
    while pos.Some?
      invariant oldpos <= |path| && Parsing(base, path, chain, oldpos)
      invariant pos.Some? ==> oldpos <= pos.value < |path| && path[pos.value] == SLASH
      invariant Lacks(path, SLASH, oldpos, if pos.Some? then pos.value else |path|)
      decreases |path| - oldpos, pos.Some?
    {
      ParsingGoesOn(base, path, chain, oldpos, pos.value);
      var fname := Substr(path, oldpos, Some(pos.value - oldpos));
      if fname != [] { chain := chain + [Entry(fname, None, None)]; }
      oldpos := pos.value + 1;
      pos := FindChar(path, SLASH, oldpos);
    }
    ParsingEnds(base, path, chain, oldpos);
    var fname := Substr(path, oldpos, None);
    if fname != [] { chain := chain + [Entry(fname, None, None)]; }
  }

  /** EOK, or an error and the entry `error_loc` names. */
  datatype Status = Fine | Trouble(error: Error, blame: nat) | Panic

  predicate Unpopulated(es: Chain) {
    forall i :: 0 <= i < |es| ==> es[i].ref == None && es[i].inode == None
  }

  /** The answer is the walk's, from the root along the components of the path. */
  ghost predicate Resolves(fs: Files, root: InodeNo, path: string, r: Status, inode: Option<InodeNo>) {
    var chain := Parsed([Entry("", None, Some(root))], path);
    match WalkTo(fs, chain, root, |chain| - 1)
    case At(stack) => r == Fine && inode == Some(stack[|stack| - 1])
    case Failed(e, blame) => r == Trouble(e, blame) && inode == None
  }

  /** The names lead from the root to this inode. */
  ghost predicate LeadTo(fs: Files, root: InodeNo, names: seq<string>, n: InodeNo) {
    exists stack: seq<InodeNo> :: stack != [] && stack[|stack| - 1] == n && NamesLead(fs, root, names, stack)
  }

  /** Where the walk ends, if it does. */
  function WalkEnd(w: Walk): Option<InodeNo>
    requires w.At? ==> w.stack != []
  {
    match w case At(stack) => Some(stack[|stack| - 1]) case Failed(_, _) => None
  }

  lemma WalkEndLeads(fs: Files, es: Chain, root: InodeNo, i: nat, n: InodeNo)
    requires i < |es|
    ensures WalkEnd(WalkTo(fs, es, root, i)) == Some(n) <==> LeadTo(fs, root, Names(es)[1..i + 1], n)
  {
    var names := Names(es)[1..i + 1];
    if WalkTo(fs, es, root, i).At? { EndLeads(fs, es, root, i); }
    hide Names, WalkTo, NamesLead;
    if LeadTo(fs, root, names, n) {
      var stack := LeadingStack(fs, root, names, n);
      LeadEnds(fs, es, root, i, stack);
    }
  }

  lemma LeadingStack(fs: Files, root: InodeNo, names: seq<string>, n: InodeNo) returns (stack: seq<InodeNo>)
    requires LeadTo(fs, root, names, n)
    ensures stack != [] && stack[|stack| - 1] == n && NamesLead(fs, root, names, stack)
  {
    hide NamesLead;
    stack :| stack != [] && stack[|stack| - 1] == n && NamesLead(fs, root, names, stack);
  }

  lemma EndLeads(fs: Files, es: Chain, root: InodeNo, i: nat)
    requires i < |es| && WalkTo(fs, es, root, i).At?
    ensures LeadTo(fs, root, Names(es)[1..i + 1], WalkEnd(WalkTo(fs, es, root, i)).value)
  {
    hide Names, NamesLead;
    WalkLeads(fs, es, root, i, WalkTo(fs, es, root, i).stack);
  }

  lemma LeadEnds(fs: Files, es: Chain, root: InodeNo, i: nat, stack: seq<InodeNo>)
    requires i < |es| && stack != [] && NamesLead(fs, root, Names(es)[1..i + 1], stack)
    ensures WalkEnd(WalkTo(fs, es, root, i)) == Some(stack[|stack| - 1])
  {
    hide Names, NamesLead;
    WalkLeads(fs, es, root, i, stack);
  }

  lemma ResolvesLeads(fs: Files, root: InodeNo, path: string, r: Status, inode: Option<InodeNo>, n: InodeNo)
    requires Resolves(fs, root, path, r, inode)
    ensures inode == Some(n) <==> LeadTo(fs, root, Components(path), n)
    ensures r == Fine <==> inode.Some?
  {
    var chain := Parsed([Entry("", None, Some(root))], path);
    assert Names(chain)[1..|chain|] == Components(path);
    assert inode == WalkEnd(WalkTo(fs, chain, root, |chain| - 1));
    hide WalkTo, Parsed, Components, LeadTo, Names;
    WalkEndLeads(fs, chain, root, |chain| - 1, n);
  }

  lemma RootAlone(fs: Files, root: InodeNo, path: string, es: Chain)
    requires es == Parsed([Entry("", None, Some(root))], path) && |es| == 1
    ensures es[0].inode == Some(root) && Resolves(fs, root, path, Fine, Some(root))
  {
    var chain := Parsed([Entry("", None, Some(root))], path);
    assert chain[0] == Entry("", None, Some(root));
  }

  lemma RootSound(fs: Files, root: InodeNo, path: string, es: Chain)
    requires es == Parsed([Entry("", None, Some(root))], path)
    ensures |es| > 0 && es[0] == Entry("", None, Some(root)) && Sound(fs, es, 0)
  {
  }

  lemma AnswersResolve(fs: Files, root: InodeNo, path: string, es: Chain, es': Chain, r: Status)
    requires es == Parsed([Entry("", None, Some(root))], path) && |es| > 0 && es[0].inode == Some(root) && SamePath(es, es')
    requires Answers(fs, es, es', |es| - 1, r)
    ensures r == Fine ==> RefsBack(es') && |es'| == |es|
    ensures Resolves(fs, root, path, r, if r == Fine then GetInode(es', |es| - 1) else None)
  {
    hide WalkTo, Parsed, GetInode, Stack;
  }

  /** Populating touches no name and not entry 0. */
  ghost predicate SamePath(es: Chain, es': Chain) {
    |es'| == |es| > 0 && es'[0] == es[0] && forall j :: 0 <= j < |es| ==> es'[j].name == es[j].name
  }

  /** `populate` of entry i answers as the walk along the names does, and then entry i means what the walk found. */
  ghost predicate Answers(fs: Files, es: Chain, es': Chain, i: nat, r: Status)
    requires i < |es| && es[0].inode.Some?
  {
    match WalkTo(fs, es, es[0].inode.value, i)
    case At(stack) => r == Fine && Resolved(es', i) && Stack(es', i) == stack && GetInode(es', i) == Some(stack[|stack| - 1])
    case Failed(e, blame) => r == Trouble(e, blame)
  }

  lemma AnswersCarry(fs: Files, es: Chain, mid: Chain, es': Chain, i: nat, r: Status)
    requires SamePath(es, mid) && SamePath(mid, es') && i < |es| && es[0].inode.Some? && Answers(fs, mid, es', i, r)
    ensures SamePath(es, es') && Answers(fs, es, es', i, r)
  {
    WalkLocal(fs, es, mid, es[0].inode.value, i);
  }

  lemma TroublePasses(fs: Files, es: Chain, es': Chain, i: nat, r: Status)
    requires 0 < i < |es| && es[0].inode.Some? && Answers(fs, es, es', i - 1, r) && r != Fine
    ensures Answers(fs, es, es', i, r)
  {
    WalkFails(fs, es, es[0].inode.value, i);
  }

  lemma SoundRoot(fs: Files, es: Chain, k: nat)
    requires Sound(fs, es, k)
    ensures RefsBack(es) && k < |es| && es[0].inode.Some? && SamePath(es, es)
  {
  }

  class Path {
    var es: Chain

    constructor (chain: Chain)
      ensures es == chain
    {
      es := chain;
    }

    method ChildNamed(children: seq<Child>, name: string) returns (r: Option<InodeNo>)
      ensures r == Find(children, name)
      ensures match r case None => NoChild(children, name) case Some(n) => FirstChild(children, name, n)
    {
      FindIsFirst(children, name, match Find(children, name) case None => 0 case Some(n) => n);
      var i := 0;
      while i < |children|
        invariant i <= |children| && Find(children, name) == Find(children[i..], name)
      {
        if children[i].name == name { return Some(children[i].inode); }
        i := i + 1;
      }
      r := None;
    }

    /** `populate` after the parent's. */
    method Attach(fs: Files, i: nat)
      returns (r: Status)
      requires 0 < i < |es| && Sound(fs, es, i - 1)
      modifies this
      ensures match PopulateHere(fs, old(es), i, i - 1)
              case Done(chain) => r == Fine && es == chain
              case Refused(e, blame) => r == Trouble(e, blame) && es == old(es)
    {
      if es[i].name == "." {
        es := es[i := es[i].(ref := Some(i - 1))];
        return Fine;
      }
      if es[i].name == ".." {
        es := es[i := es[i].(ref := Some(LogicalParent(es, i - 1)))];
        return Fine;
      }
      var dir := GetInode(es, i - 1);
      InodeIsTop(es, i - 1);
      if dir.value !in fs || !fs[dir.value].directory { return Trouble(NotDirectory, i - 1); }
      var child := ChildNamed(fs[dir.value].children, es[i].name);
      if child == None { return Trouble(NoEntry, i); }
      if child.value !in fs {
        es := es[i := es[i].(inode := None)];
        return Trouble(Unread, i);
      }
      es := es[i := es[i].(inode := child)];
      r := Fine;
    }

    method PopulateLast(fs: Files, i: nat) returns (r: Status)
      requires 0 < i < |es| && Sound(fs, es, i - 1)
      modifies this
      ensures SamePath(old(es), es) && Answers(fs, old(es), es, i, r) && Sound(fs, es, if r == Fine then i else i - 1)
    {
      PopulateFollowsWalk(fs, es, i);
      r := Attach(fs, i);
      if r == Fine {
        InodeIsTop(es, i);
        WalkLocal(fs, old(es), es, es[0].inode.value, i);
      }
    }

    /** `populate`, on a chain populated up to entry k: the answer is the walk's, and so is what entry i then means. */
    method Populate(fs: Files, i: nat, ghost k: nat) returns (r: Status, ghost reached: nat)
      requires k < i < |es| && Sound(fs, es, k)
      modifies this
      ensures SamePath(old(es), es) && Answers(fs, old(es), es, i, r)
      ensures reached <= i && Sound(fs, es, reached) && (r == Fine ==> reached == i)
      decreases i
    {
      var lp := LogicalParent(es, i);
      assert lp == i - 1;
      PopulatedIsVisible(fs, es, k, lp);
      SoundRoot(fs, es, k);
      hide *;
      if GetInode(es, lp) == None {
        r, reached := Populate(fs, lp, k);
        if r != Fine {
          TroublePasses(fs, old(es), es, i, r);
          return;
        }
      }
      label attach: SoundRoot(fs, es, lp);
      r := PopulateLast(fs, i);
      AnswersCarry(fs, old(es), old@attach(es), es, i, r);
      reached := if r == Fine then i else lp;
    }

    /** The same code on a chain of which not even entry 0 is populated: it climbs to entry 0 and dereferences that one's
        null parent. */
    method PopulateUnrooted(i: nat) returns (r: Status)
      requires i < |es| && Unpopulated(es)
      ensures r == Panic
      decreases i
    {
      var lp := LogicalParent(es, i);
      assert GetInode(es, lp) == None;
      if i == 0 { return Panic; }
      r := PopulateUnrooted(i - 1);
    }

    method ResolveChain(fs: Files, root: InodeNo, path: string) returns (r: Status, inode: Option<InodeNo>)
      modifies this
      ensures Resolves(fs, root, path, r, inode)
    {
      es := ParsePath(path, [Entry("", None, Some(root))]);
      RootSound(fs, root, path, es);
      hide *;
      var last := |es| - 1;
      if last == 0 {
        RootAlone(fs, root, path, es);
        return Fine, es[0].inode;
      }
      label parsed: ghost var reached;
      r, reached := Populate(fs, last, 0);
      AnswersResolve(fs, root, path, old@parsed(es), es, r);
      if r == Fine { inode := GetInode(es, last); } else { inode := None; }
    }

    /** Parse a path below a populated root and resolve it: the inode is that of the directory or file the names lead to. */
    method Resolve(fs: Files, root: InodeNo, path: string) returns (r: Status, inode: Option<InodeNo>)
      modifies this
      ensures Resolves(fs, root, path, r, inode)
      ensures forall n: InodeNo :: inode == Some(n) <==> LeadTo(fs, root, Components(path), n)
      ensures r == Fine <==> inode.Some?
    {
      hide *;
      r, inode := ResolveChain(fs, root, path);
      forall n: InodeNo ensures inode == Some(n) <==> LeadTo(fs, root, Components(path), n) {
        ResolvesLeads(fs, root, path, r, inode, n);
      }
      ResolvesLeads(fs, root, path, r, inode, root);
    }
  }
}
