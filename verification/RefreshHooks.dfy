/** A refresh together with the hooks it runs: the known libraries on one side, memory on the other. */
module RefreshHooks {
  import opened RbImage
  import opened RbLinks
  import opened HookFilter
  import opened Reconcile
  import R = Refresh
  import L = HookLibraries
  import H = Hook

  /** A refresh writes neither memory nor the cells for old functions. */
  method RefreshKeeping(head: Head, hooks: seq<HookInfo>, ignores: seq<IgnoreInfo>, openOk: bool, lines: seq<R.MapLine>,
                        ghost m: H.Memory, ghost was: Book, ghost cells: set<BaseCell>, ghost w: L.World)
    returns (hooked: seq<Load>)
    requires R.Holds(head, was) && L.Holds(m, w)
    requires forall i :: 0 <= i < |hooks| && hooks[i].cell != null ==> hooks[i].cell in cells
    modifies head, Nodes(head.tree), cells
    ensures L.Holds(m, w)
    ensures R.Holds(head, if openOk then Refreshed(was, R.Loads(hooks, ignores, lines)).seen else was)
    ensures hooked == if openOk then Refreshed(was, R.Loads(hooks, ignores, lines)).hooked else []
  {
    var freed;
    ghost var created;
    hooked, freed, created := R.RefreshImpl(head, hooks, ignores, openOk, lines, was, cells);
  }

  /** And hooking does not write the known libraries. */
  method HookKeeping(head: Head, site: Load -> L.Library, m: H.Memory, hooks: seq<HookInfo>, ignores: seq<IgnoreInfo>,
                     loads: seq<Load>, ghost book: Book, ghost facts: Load -> L.Facts, ghost w: L.World)
    returns (ghost now: L.World)
    requires R.Holds(head, book)
    requires L.AllSearchable(site, facts) && L.Holds(m, w) && L.Covers(w, hooks)
    modifies m, w.cells.Keys
    ensures R.Holds(head, book)
    ensures L.Holds(m, now) && now.cells.Keys == w.cells.Keys
    ensures L.AllUnpackable(site, facts) ==> now == L.AfterLoads(site, facts, hooks, ignores, loads, w)
  {
    NodesExist(head.tree);
    now := L.HookLoads(site, m, hooks, ignores, loads, facts, w);
  }

  /**
   xh_core_refresh_impl: the known libraries become those of the mapping list, and memory what hooking the
   new and the moved ones makes of it, one after the other. `site` is what is mapped for a path at a base.
   */
  method RefreshAndHook(head: Head, hooks: seq<HookInfo>, ignores: seq<IgnoreInfo>, openOk: bool, lines: seq<R.MapLine>,
                        site: Load -> L.Library, m: H.Memory, ghost was: Book, ghost cells: set<BaseCell>,
                        ghost facts: Load -> L.Facts, ghost w: L.World) returns (ghost now: L.World)
    requires R.Holds(head, was)
    requires forall i :: 0 <= i < |hooks| && hooks[i].cell != null ==> hooks[i].cell in cells
    requires L.AllSearchable(site, facts) && L.Holds(m, w) && L.Covers(w, hooks)
    modifies head, Nodes(head.tree), cells, m, w.cells.Keys
    ensures R.Holds(head, if openOk then Refreshed(was, R.Loads(hooks, ignores, lines)).seen else was)
    ensures L.Holds(m, now) && now.cells.Keys == w.cells.Keys
    ensures L.AllUnpackable(site, facts) ==>
              now == if openOk then Made(site, facts, hooks, ignores, was, lines, w) else w
  {
    var hooked := RefreshKeeping(head, hooks, ignores, openOk, lines, m, was, cells, w);
    ghost var book := if openOk then Refreshed(was, R.Loads(hooks, ignores, lines)).seen else was;
    now := HookKeeping(head, site, m, hooks, ignores, hooked, book, facts, w);
  }

  /** What the hooks of one refresh make of memory. */
  ghost function Made(site: Load -> L.Library, facts: Load -> L.Facts, hooks: seq<HookInfo>, ignores: seq<IgnoreInfo>,
                      was: Book, lines: seq<R.MapLine>, w: L.World): L.World
  {
    L.AfterLoads(site, facts, hooks, ignores, Refreshed(was, R.Loads(hooks, ignores, lines)).hooked, w)
  }

  /** Refreshing again from the same mapping list leaves the known libraries and memory as they are. */
  lemma SecondRefresh(site: Load -> L.Library, facts: Load -> L.Facts, hooks: seq<HookInfo>, ignores: seq<IgnoreInfo>,
                      was: Book, lines: seq<R.MapLine>, w: L.World)
    ensures var b := Refreshed(was, R.Loads(hooks, ignores, lines)).seen;
            && Refreshed(b, R.Loads(hooks, ignores, lines)).seen == b
            && Made(site, facts, hooks, ignores, b, lines, w) == w
  {
    Again(was, R.Loads(hooks, ignores, lines));
  }

  /**
   A word that a refresh changes is a slot, in a library that is new or has moved, of a hook that applies to
   it, and holds that hook's function.
   */
  lemma OnlySlotsChange(site: Load -> L.Library, facts: Load -> L.Facts, hooks: seq<HookInfo>,
                        ignores: seq<IgnoreInfo>, was: Book, lines: seq<R.MapLine>, w: L.World, a: nat)
    returns (k: nat, i: nat)
    requires H.Read(Made(site, facts, hooks, ignores, was, lines, w).words, a) != H.Read(w.words, a)
    ensures var loads := R.Loads(hooks, ignores, lines);
            && k < |loads| && NeedsHook(was, loads, k)
            && L.Names(site(loads[k]), facts(loads[k]), hooks, ignores, loads[k].path, i, a)
            && H.Read(Made(site, facts, hooks, ignores, was, lines, w).words, a) == hooks[i].newFunc
  {
    var loads := R.Loads(hooks, ignores, lines);
    var hooked := Refreshed(was, loads).hooked;
    var j;
    j, i := L.LoadsChange(site, facts, hooks, ignores, hooked, w, a);
    HookedExactly(was, loads, hooked[j]);
    k :| 0 <= k < |loads| && loads[k] == hooked[j] && NeedsHook(was, loads, k);
  }
}
