/**
 `xh_core_hook_impl` of `xh_core.c`: all hooks of one library, and of several one after the other, as what
 they make of memory.
 */
module HookLibraries {
  import opened CString
  import opened Options
  import opened SymbolLookup
  import opened HookFilter
  import opened Reconcile
  import D = Dynamic
  import P = PackedRelocs
  import H = Hook
  import E = ElfHook

  /** What is mapped: the bytes, and the dynamic entries in them. */
  datatype Library = Library(img: E.Image, dyn: seq<D.Dyn>)

  /** What makes its tables well-formed: the chains of the hash table, the groups of the packed table. */
  datatype Facts = Facts(lists: seq<seq<nat>>, groups: seq<P.Group>, start: nat)

  ghost predicate Hookable(lib: Library) {
    E.Initialisable(lib.img, E.Entries(lib.dyn))
  }

  ghost function ElfOf(lib: Library): H.Elf
    requires Hookable(lib)
  {
    E.DeclaredElf(lib.img, E.Entries(lib.dyn))
  }

  /** A library that can be hooked has a well-formed hash table. */
  ghost predicate Searchable(lib: Library, facts: Facts) {
    Hookable(lib) ==> Searches(ElfOf(lib), facts)
  }

  ghost predicate Searches(elf: H.Elf, facts: Facts) {
    elf.inited && WellFormed(elf.table, facts.lists)
  }

  /** And its packed table, if it has one, is well-formed. */
  ghost predicate Unpackable(lib: Library, facts: Facts) {
    Hookable(lib) ==> Unpacks(ElfOf(lib), facts)
  }

  ghost predicate Unpacks(elf: H.Elf, facts: Facts) {
    elf.hasAndroid ==> H.Packed(elf, facts.groups, facts.start)
  }

  // ---------- what hooking makes of memory ----------

  /** The words of the process and the cells for the old functions. */
  datatype World = World(words: map<nat, nat>, cells: map<H.Cell, nat>)

  ghost predicate Holds(m: H.Memory, w: World)
    reads m, w.cells.Keys
  {
    m.words == w.words && forall c :: c in w.cells ==> c.value == w.cells[c]
  }

  /** The cells of all hooks are among those of `w`. */
  ghost predicate Covers(w: World, hooks: seq<HookInfo>) {
    forall i :: 0 <= i < |hooks| && hooks[i].oldFunc != null ==> hooks[i].oldFunc in w.cells
  }

  /** The words of a library through which it calls the symbol. */
  ghost function SlotsOf(elf: H.Elf, facts: Facts, symbol: CStr): seq<nat> {
    match Answer(elf.table, facts.lists, symbol)
    case NotFound => []
    case Found(i) => H.Targets(elf, i, if elf.hasAndroid then P.Flatten(facts.groups) else [])
  }

  /** Where a hook starts from. */
  ghost function Before(w: World, hi: HookInfo): H.State {
    H.State(w.words, if hi.oldFunc != null && hi.oldFunc in w.cells then w.cells[hi.oldFunc] else 0, 0)
  }

  /** What it leaves. */
  ghost function Left(w: World, hi: HookInfo, t: H.State): World {
    World(t.words, if hi.oldFunc != null && hi.oldFunc in w.cells then w.cells[hi.oldFunc := t.saved] else w.cells)
  }

  /** One hook in one library; how it ends is not looked at. */
  ghost function AfterHook(elf: H.Elf, facts: Facts, hi: HookInfo, w: World): World {
    Left(w, hi, H.Outcome(elf, hi.newFunc, Before(w, hi), SlotsOf(elf, facts, hi.symbol)))
  }

  ghost predicate Indices(applied: seq<nat>, hooks: seq<HookInfo>) {
    forall k :: 0 <= k < |applied| ==> applied[k] < |hooks|
  }

  /** The hooks with these indices, in order. */
  ghost function AfterHooks(elf: H.Elf, facts: Facts, hooks: seq<HookInfo>, applied: seq<nat>, w: World): World
    requires Indices(applied, hooks)
  {
    if applied == [] then w
    else
      var n := |applied| - 1;
      AfterHook(elf, facts, hooks[applied[n]], AfterHooks(elf, facts, hooks, applied[..n], w))
  }

  /** All hooks that apply to the library. */
  ghost function AfterLibrary(lib: Library, facts: Facts, hooks: seq<HookInfo>, ignores: seq<IgnoreInfo>, path: CStr,
                              w: World): World
  {
    if !Hookable(lib) then w
    else
      AppliedInRange(hooks, ignores, path);
      AfterHooks(ElfOf(lib), facts, hooks, Applied(hooks, ignores, path, |hooks|), w)
  }

  /** Several libraries, one after the other. */
  ghost function AfterLoads(site: Load -> Library, facts: Load -> Facts, hooks: seq<HookInfo>,
                            ignores: seq<IgnoreInfo>, loads: seq<Load>, w: World): World
  {
    if loads == [] then w
    else
      var l := loads[|loads| - 1];
      AfterLibrary(site(l), facts(l), hooks, ignores, l.path,
                   AfterLoads(site, facts, hooks, ignores, loads[..|loads| - 1], w))
  }

  /** Two of them: the second finds what the first has made of memory. */
  lemma TwoLoads(site: Load -> Library, facts: Load -> Facts, hooks: seq<HookInfo>, ignores: seq<IgnoreInfo>, k: Load,
                 l: Load, w: World)
    ensures AfterLoads(site, facts, hooks, ignores, [k, l], w) ==
            AfterLibrary(site(l), facts(l), hooks, ignores, l.path,
                         AfterLibrary(site(k), facts(k), hooks, ignores, k.path, w))
  {
    assert [k, l][..1] == [k] && [k][..0] == [];
    assert AfterLoads(site, facts, hooks, ignores, [k], w) ==
           AfterLibrary(site(k), facts(k), hooks, ignores, k.path, w);
  }

  // ---------- the source's functions ----------

  /** Whatever is mapped can be searched if it can be hooked at all. */
  ghost predicate AllSearchable(site: Load -> Library, facts: Load -> Facts) {
    forall l: Load :: Searchable(site(l), facts(l))
  }

  ghost predicate AllUnpackable(site: Load -> Library, facts: Load -> Facts) {
    forall l: Load :: Unpackable(site(l), facts(l))
  }

  /** One call of xh_elf_hook. */
  method HookOne(elf: H.Elf, m: H.Memory, hi: HookInfo, ghost facts: Facts, ghost good: bool, ghost w: World)
    returns (ghost w': World)
    requires Searches(elf, facts)
    requires Holds(m, w) && (hi.oldFunc != null ==> hi.oldFunc in w.cells) && (good ==> Unpacks(elf, facts))
    modifies m, w.cells.Keys
    ensures Holds(m, w') && w'.cells.Keys == w.cells.Keys
    ensures good ==> w' == AfterHook(elf, facts, hi, w)
  {
    ghost var s := Before(w, hi);
    ghost var r, lookup, android :=
      H.Hook(elf, m, Some(hi.symbol), hi.newFunc, hi.oldFunc, facts.lists, facts.groups, facts.start);
    ghost var slots := if lookup.Found? then H.Targets(elf, lookup.index, android) else [];
    ghost var t := H.Outcome(elf, hi.newFunc, s, slots);
    LeftHolds(m, w, hi, t);
    w' := Left(w, hi, t);
  }

  lemma LeftHolds(m: H.Memory, w: World, hi: HookInfo, t: H.State)
    requires H.Shows(m, hi.oldFunc, t) && (hi.oldFunc != null ==> hi.oldFunc in w.cells)
    requires forall c :: c in w.cells && c != hi.oldFunc ==> c.value == w.cells[c]
    ensures Holds(m, Left(w, hi, t)) && Left(w, hi, t).cells.Keys == w.cells.Keys
  {
  }

  /** Where some hooks lead. */
  ghost predicate Reached(elf: H.Elf, facts: Facts, hooks: seq<HookInfo>, applied: seq<nat>, good: bool, w: World,
                          w': World)
  {
    && w'.cells.Keys == w.cells.Keys && Indices(applied, hooks)
    && (good ==> w' == AfterHooks(elf, facts, hooks, applied, w))
  }

  /** The hooks that apply, each tried whatever comes of it. */
  method HookEach(elf: H.Elf, m: H.Memory, hooks: seq<HookInfo>, applied: seq<nat>, ghost facts: Facts,
                  ghost good: bool, ghost w: World) returns (ghost w': World)
    requires Searches(elf, facts) && Indices(applied, hooks)
    requires Holds(m, w) && Covers(w, hooks) && (good ==> Unpacks(elf, facts))
    modifies m, w.cells.Keys
    ensures Holds(m, w') && w'.cells.Keys == w.cells.Keys
    ensures good ==> w' == AfterHooks(elf, facts, hooks, applied, w)
  {
    w' := w;
    var k := 0;
    NoHook(elf, facts, hooks, applied, w);
    while k < |applied|
      invariant k <= |applied| && Holds(m, w') && Reached(elf, facts, hooks, applied[..k], good, w, w')
    {
      OneMoreHook(elf, facts, hooks, applied, k, w);
      w' := HookOne(elf, m, hooks[applied[k]], facts, good, w');
      k := k + 1;
    }
    assert applied[..k] == applied;
  }

  /** xh_core_hook_impl: the library is initialised once, then the hooks that apply to it are tried. */
  method HookImpl(lib: Library, m: H.Memory, hooks: seq<HookInfo>, ignores: seq<IgnoreInfo>, path: CStr,
                  ghost facts: Facts, ghost w: World) returns (ghost w': World)
    requires Searchable(lib, facts) && Holds(m, w) && Covers(w, hooks)
    modifies m, w.cells.Keys
    ensures Holds(m, w') && w'.cells.Keys == w.cells.Keys
    ensures Unpackable(lib, facts) ==> w' == AfterLibrary(lib, facts, hooks, ignores, path, w)
  {
    w' := w;
    var r, fields := E.Init(lib.img, lib.dyn);
    if r != 0 {
      return;
    }
    var elf := E.Described(lib.img, fields.sections, fields.hashing);
    var applied := HookAll(hooks, ignores, path);
    AppliedInRange(hooks, ignores, path);
    w' := HookEach(elf, m, hooks, applied, facts, Unpacks(elf, facts), w);
  }

  /** Several libraries, in order. */
  method HookLoads(site: Load -> Library, m: H.Memory, hooks: seq<HookInfo>, ignores: seq<IgnoreInfo>, loads: seq<Load>,
                   ghost facts: Load -> Facts, ghost w: World) returns (ghost w': World)
    requires AllSearchable(site, facts) && Holds(m, w) && Covers(w, hooks)
    modifies m, w.cells.Keys
    ensures Holds(m, w') && w'.cells.Keys == w.cells.Keys
    ensures AllUnpackable(site, facts) ==> w' == AfterLoads(site, facts, hooks, ignores, loads, w)
  {
    w' := w;
    var k := 0;
    ghost var good, u := AllUnpackable(site, facts), w;
    NoLoad(site, facts, hooks, ignores, loads, w);
    while k < |loads|
      invariant k <= |loads| && Holds(m, w') && w'.cells.Keys == w.cells.Keys
      invariant u == AfterLoads(site, facts, hooks, ignores, loads[..k], w) && (good ==> w' == u)
    {
      var l := loads[k];
      OneMoreLoad(site, facts, hooks, ignores, loads, k, w);
      u := AfterLibrary(site(l), facts(l), hooks, ignores, l.path, u);
      w' := HookImpl(site(l), m, hooks, ignores, l.path, facts(l), w');
      k := k + 1;
    }
    assert loads[..k] == loads;
  }

  lemma NoLoad(site: Load -> Library, facts: Load -> Facts, hooks: seq<HookInfo>, ignores: seq<IgnoreInfo>,
               loads: seq<Load>, w: World)
    ensures AfterLoads(site, facts, hooks, ignores, loads[..0], w) == w
  {
  }

  lemma OneMoreLoad(site: Load -> Library, facts: Load -> Facts, hooks: seq<HookInfo>, ignores: seq<IgnoreInfo>,
                    loads: seq<Load>, k: nat, w: World)
    requires k < |loads|
    ensures AfterLoads(site, facts, hooks, ignores, loads[..k + 1], w) ==
            AfterLibrary(site(loads[k]), facts(loads[k]), hooks, ignores, loads[k].path,
                         AfterLoads(site, facts, hooks, ignores, loads[..k], w))
  {
    assert loads[..k + 1][..k] == loads[..k];
  }

  lemma NoHook(elf: H.Elf, facts: Facts, hooks: seq<HookInfo>, applied: seq<nat>, w: World)
    ensures AfterHooks(elf, facts, hooks, applied[..0], w) == w
  {
  }

  lemma OneMoreHook(elf: H.Elf, facts: Facts, hooks: seq<HookInfo>, applied: seq<nat>, k: nat, w: World)
    requires Indices(applied, hooks) && k < |applied|
    ensures AfterHooks(elf, facts, hooks, applied[..k + 1], w) ==
            AfterHook(elf, facts, hooks[applied[k]], AfterHooks(elf, facts, hooks, applied[..k], w))
  {
    assert applied[..k + 1][..k] == applied[..k];
  }

  lemma AppliedInRange(hooks: seq<HookInfo>, ignores: seq<IgnoreInfo>, path: CStr)
    ensures Indices(Applied(hooks, ignores, path, |hooks|), hooks)
  {
    var applied := Applied(hooks, ignores, path, |hooks|);
    forall k | 0 <= k < |applied|
      ensures applied[k] < |hooks|
    {
      AppliedIs(hooks, ignores, path, |hooks|, applied[k]);
    }
  }

  // ---------- what stays as it is ----------

  /** A hook that applies to the library names the word as one to set. */
  ghost predicate Names(lib: Library, facts: Facts, hooks: seq<HookInfo>, ignores: seq<IgnoreInfo>, path: CStr, i: nat,
                        a: nat)
  {
    && Hookable(lib) && i < |hooks| && hooks[i].newFunc != 0
    && hooks[i].pattern(path) && !Excluded(ignores, path, hooks[i].symbol)
    && a in SlotsOf(ElfOf(lib), facts, hooks[i].symbol)
  }

  /** One hook changes its slots only, and those to its function. */
  lemma HookChanges(elf: H.Elf, facts: Facts, hi: HookInfo, w: World, a: nat)
    ensures var u := AfterHook(elf, facts, hi, w);
            || H.Read(u.words, a) == H.Read(w.words, a)
            || (hi.newFunc != 0 && a in SlotsOf(elf, facts, hi.symbol) && H.Read(u.words, a) == hi.newFunc)
  {
    var s, slots := Before(w, hi), SlotsOf(elf, facts, hi.symbol);
    if hi.newFunc == 0 {
      H.NullOnlyReads(elf, s, slots);
    } else {
      var n := H.EndState(elf, hi.newFunc, s, slots);
      assert forall b :: b in slots[..n] ==> b in slots;
    }
  }

  /** So do several: a word that differs holds the function of one of them, and is a slot of it. */
  lemma {:induction false} HooksChange(elf: H.Elf, facts: Facts, hooks: seq<HookInfo>, applied: seq<nat>, w: World,
                                       a: nat) returns (i: nat)
    requires Indices(applied, hooks)
    requires H.Read(AfterHooks(elf, facts, hooks, applied, w).words, a) != H.Read(w.words, a)
    ensures i in applied && i < |hooks| && hooks[i].newFunc != 0 && a in SlotsOf(elf, facts, hooks[i].symbol)
    ensures H.Read(AfterHooks(elf, facts, hooks, applied, w).words, a) == hooks[i].newFunc
  {
    var n := |applied| - 1;
    assert Indices(applied[..n], hooks);
    var u := AfterHooks(elf, facts, hooks, applied[..n], w);
    HookChanges(elf, facts, hooks[applied[n]], u, a);
    if H.Read(AfterHooks(elf, facts, hooks, applied, w).words, a) != H.Read(u.words, a) {
      i := applied[n];
    } else {
      i := HooksChange(elf, facts, hooks, applied[..n], w, a);
    }
  }

  /** And so do all hooks of all libraries: no other word of the process changes. */
  lemma {:induction false} LoadsChange(site: Load -> Library, facts: Load -> Facts, hooks: seq<HookInfo>,
                                       ignores: seq<IgnoreInfo>, loads: seq<Load>, w: World, a: nat)
    returns (k: nat, i: nat)
    requires H.Read(AfterLoads(site, facts, hooks, ignores, loads, w).words, a) != H.Read(w.words, a)
    ensures k < |loads| && Names(site(loads[k]), facts(loads[k]), hooks, ignores, loads[k].path, i, a)
    ensures H.Read(AfterLoads(site, facts, hooks, ignores, loads, w).words, a) == hooks[i].newFunc
  {
    var n := |loads| - 1;
    var l := loads[n];
    var u := AfterLoads(site, facts, hooks, ignores, loads[..n], w);
    if H.Read(AfterLoads(site, facts, hooks, ignores, loads, w).words, a) != H.Read(u.words, a) {
      var applied := Applied(hooks, ignores, l.path, |hooks|);
      AppliedInRange(hooks, ignores, l.path);
      i := HooksChange(ElfOf(site(l)), facts(l), hooks, applied, u, a);
      AppliedIs(hooks, ignores, l.path, |hooks|, i);
      k := n;
    } else {
      k, i := LoadsChange(site, facts, hooks, ignores, loads[..n], w, a);
    }
  }

  // ---------- who wins ----------

  /** A hook that meets no fault sets each of its slots. */
  lemma HookSets(elf: H.Elf, facts: Facts, hi: HookInfo, w: World, a: nat)
    requires hi.newFunc != 0 && a in SlotsOf(elf, facts, hi.symbol)
    requires H.AllClear(elf, hi.newFunc, w.words, SlotsOf(elf, facts, hi.symbol))
    ensures H.Read(AfterHook(elf, facts, hi, w).words, a) == hi.newFunc
  {
    var slots := SlotsOf(elf, facts, hi.symbol);
    var n := H.EndState(elf, hi.newFunc, Before(w, hi), slots);
    assert slots[..n] == slots;
  }

  /** Hook `k` comes upon no fault. */
  ghost predicate Succeeds(elf: H.Elf, facts: Facts, hooks: seq<HookInfo>, applied: seq<nat>, w: World, k: nat)
    requires Indices(applied, hooks) && k < |applied|
  {
    var hi := hooks[applied[k]];
    H.AllClear(elf, hi.newFunc, AfterHooks(elf, facts, hooks, applied[..k], w).words, SlotsOf(elf, facts, hi.symbol))
  }

  /** Hook `k` is one that sets the word. */
  ghost predicate Sets(elf: H.Elf, facts: Facts, hooks: seq<HookInfo>, applied: seq<nat>, k: nat, a: nat)
    requires Indices(applied, hooks) && k < |applied|
  {
    hooks[applied[k]].newFunc != 0 && a in SlotsOf(elf, facts, hooks[applied[k]].symbol)
  }

  lemma SetsAt(elf: H.Elf, facts: Facts, hooks: seq<HookInfo>, applied: seq<nat>, w: World, k: nat, a: nat)
    requires Indices(applied, hooks) && k < |applied|
    ensures Sets(elf, facts, hooks, applied, k, a) && Succeeds(elf, facts, hooks, applied, w, k) ==>
              H.Read(AfterHooks(elf, facts, hooks, applied[..k + 1], w).words, a) == hooks[applied[k]].newFunc
    ensures !Sets(elf, facts, hooks, applied, k, a) ==>
              H.Read(AfterHooks(elf, facts, hooks, applied[..k + 1], w).words, a) ==
              H.Read(AfterHooks(elf, facts, hooks, applied[..k], w).words, a)
  {
    var before := AfterHooks(elf, facts, hooks, applied[..k], w);
    OneMoreHook(elf, facts, hooks, applied, k, w);
    HookChanges(elf, facts, hooks[applied[k]], before, a);
    if Sets(elf, facts, hooks, applied, k, a) && Succeeds(elf, facts, hooks, applied, w, k) {
      HookSets(elf, facts, hooks[applied[k]], before, a);
    }
  }

  /** Among the hooks of a library the last one that sets a word decides what it holds. */
  lemma {:induction false} LastHookWins(elf: H.Elf, facts: Facts, hooks: seq<HookInfo>, applied: seq<nat>, w: World,
                                        k: nat, n: nat, a: nat)
    requires Indices(applied, hooks) && k < n <= |applied|
    requires Sets(elf, facts, hooks, applied, k, a) && Succeeds(elf, facts, hooks, applied, w, k)
    requires forall j :: k < j < n ==> !Sets(elf, facts, hooks, applied, j, a)
    ensures H.Read(AfterHooks(elf, facts, hooks, applied[..n], w).words, a) == hooks[applied[k]].newFunc
  {
    var j := n - 1;
    SetsAt(elf, facts, hooks, applied, w, j, a);
    assert applied[..j + 1] == applied[..n];
    if k < j {
      assert !Sets(elf, facts, hooks, applied, j, a);
      LastHookWins(elf, facts, hooks, applied, w, k, j, a);
    } else {
      assert k == j;
    }
  }

  /** A hook on one word that can be written. */
  lemma HooksOneWord(elf: H.Elf, facts: Facts, hi: HookInfo, w: World, a: nat)
    requires SlotsOf(elf, facts, hi.symbol) == [a] && a >= elf.base && elf.getProtect(a) == H.Granted(3)
    requires hi.newFunc !in {0, H.Read(w.words, a)} && hi.oldFunc != null && hi.oldFunc in w.cells
    ensures AfterHook(elf, facts, hi, w) ==
            World(w.words[a := hi.newFunc], w.cells[hi.oldFunc := H.Read(w.words, a)])
  {
    var s := Before(w, hi);
    assert [a][1..] == [];
    assert H.Outcome(elf, hi.newFunc, s, [a]) == H.Step(elf, hi.newFunc, s, a);
  }

  /**
   Two hooks on one word: it ends as the second's function, whose old function is the first's, and the
   first's old function is what the word held before.
   */
  lemma TwoHooks(elf: H.Elf, facts: Facts, f: HookInfo, g: HookInfo, w: World, a: nat)
    requires SlotsOf(elf, facts, f.symbol) == [a] && g.symbol == f.symbol && a >= elf.base
    requires f.newFunc != 0 && g.newFunc !in {0, f.newFunc} && elf.getProtect(a) == H.Granted(3)
    requires H.Read(w.words, a) !in {f.newFunc, g.newFunc}
    requires f.oldFunc != null && g.oldFunc != null && f.oldFunc != g.oldFunc
    requires f.oldFunc in w.cells && g.oldFunc in w.cells
    ensures AfterHooks(elf, facts, [f, g], [0, 1], w) ==
            World(w.words[a := g.newFunc], w.cells[f.oldFunc := H.Read(w.words, a)][g.oldFunc := f.newFunc])
  {
    HooksOneWord(elf, facts, f, w, a);
    var u := World(w.words[a := f.newFunc], w.cells[f.oldFunc := H.Read(w.words, a)]);
    HooksOneWord(elf, facts, g, u, a);
    AfterTwo(elf, facts, f, g, w);
    SetTwice(w.words, a, f.newFunc, g.newFunc);
  }

  lemma SetTwice(words: map<nat, nat>, a: nat, x: nat, y: nat)
    ensures words[a := x][a := y] == words[a := y]
  {
  }

  lemma AfterTwo(elf: H.Elf, facts: Facts, f: HookInfo, g: HookInfo, w: World)
    ensures AfterHooks(elf, facts, [f, g], [0, 1], w) == AfterHook(elf, facts, g, AfterHook(elf, facts, f, w))
  {
    NoHook(elf, facts, [f, g], [0, 1], w);
    OneMoreHook(elf, facts, [f, g], [0, 1], 0, w);
    OneMoreHook(elf, facts, [f, g], [0, 1], 1, w);
    assert [0, 1][..2] == [0, 1];
  }
}
