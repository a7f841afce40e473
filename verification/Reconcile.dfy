/** What one refresh does to the known libraries, on maps from path names to base addresses. */
module Reconcile {
  import opened CString

  /** An eligible mapping: a library's path and where it is loaded. */
  datatype Load = Load(path: CStr, base: nat)

  type Book = map<CStr, nat>

  /** Libraries not seen again yet, libraries seen, and the hooks run so far. */
  datatype Books = Books(known: Book, seen: Book, hooked: seq<Load>)

  /** One eligible mapping: a known library moves over, an unknown one is added, a repeated one is dropped. */
  function Step(b: Books, l: Load): Books {
    if l.path in b.known then
      Books(b.known - {l.path}, b.seen[l.path := l.base],
            if b.known[l.path] != l.base then b.hooked + [l] else b.hooked)
    else if l.path in b.seen then b
    else Books(b.known, b.seen[l.path := l.base], b.hooked + [l])
  }

  function Refreshed(was: Book, loads: seq<Load>): Books {
    if loads == [] then Books(was, map[], [])
    else Step(Refreshed(was, loads[..|loads| - 1]), loads[|loads| - 1])
  }

  /** Load `i` is the first one of its path. */
  ghost predicate IsFirst(loads: seq<Load>, i: nat)
    requires i < |loads|
  {
    forall j :: 0 <= j < i ==> loads[j].path != loads[i].path
  }

  /** Load `i` is one the hook has to run for: the first of its path, and new or moved. */
  ghost predicate NeedsHook(was: Book, loads: seq<Load>, i: nat)
    requires i < |loads|
  {
    IsFirst(loads, i) && !(loads[i].path in was && was[loads[i].path] == loads[i].base)
  }

  ghost predicate Seen(loads: seq<Load>, path: CStr) {
    exists i :: 0 <= i < |loads| && loads[i].path == path
  }

  lemma SeenSnoc(loads: seq<Load>, l: Load, path: CStr)
    ensures Seen(loads + [l], path) <==> Seen(loads, path) || l.path == path
  {
    var all := loads + [l];
    assert all[|loads|] == l;
    if Seen(loads, path) {
      var i :| 0 <= i < |loads| && loads[i].path == path;
      assert all[i].path == path;
    }
  }

  /**
   The old entries left are those not seen, the new ones those seen, so that no path is ever in both:
   a library found among the old ones cannot be a repeated one.
   */
  lemma {:induction false} KeysApart(was: Book, loads: seq<Load>, path: CStr)
    ensures var b := Refreshed(was, loads);
            && (path in b.seen <==> Seen(loads, path))
            && (path in b.known <==> path in was && !Seen(loads, path))
            && (path in b.known ==> b.known[path] == was[path])
  {
    if loads == [] {
    } else {
      var front, l := loads[..|loads| - 1], loads[|loads| - 1];
      assert loads == front + [l];
      KeysApart(was, front, path);
      KeysApart(was, front, l.path);
      SeenSnoc(front, l, path);
    }
  }

  lemma LastIsFirst(loads: seq<Load>)
    requires loads != []
    ensures var n := |loads| - 1; Seen(loads[..n], loads[n].path) <==> !IsFirst(loads, n)
  {
    var n := |loads| - 1;
    if !IsFirst(loads, n) {
      var j :| 0 <= j < n && loads[j].path == loads[n].path;
      assert loads[..n][j].path == loads[n].path;
    }
  }

  /** Each library gets the base address of its first mapping. */
  lemma {:induction false} FirstBaseKept(was: Book, loads: seq<Load>, i: nat)
    requires i < |loads| && IsFirst(loads, i)
    ensures var b := Refreshed(was, loads); loads[i].path in b.seen && b.seen[loads[i].path] == loads[i].base
    decreases |loads|
  {
    var front, l := loads[..|loads| - 1], loads[|loads| - 1];
    KeysApart(was, front, l.path);
    if i < |front| {
      FirstBaseKept(was, front, i);
      if l.path == loads[i].path {
        assert front[i].path == l.path;
        assert Seen(front, l.path);
      }
    } else {
      LastIsFirst(loads);
    }
  }

  /** `x` is a load the hook has to run for. */
  ghost predicate Needed(was: Book, loads: seq<Load>, x: Load) {
    exists i :: 0 <= i < |loads| && loads[i] == x && NeedsHook(was, loads, i)
  }

  /** The hook runs for exactly the loads that need it. */
  lemma {:induction false} HookedExactly(was: Book, loads: seq<Load>, x: Load)
    ensures x in Refreshed(was, loads).hooked <==> Needed(was, loads, x)
    decreases |loads|
  {
    if loads == [] {
    } else {
      var n := |loads| - 1;
      HookedExactly(was, loads[..n], x);
      LastNeedsHook(was, loads);
      NeededSnoc(was, loads, x);
    }
  }

  lemma NeededSnoc(was: Book, loads: seq<Load>, x: Load)
    requires loads != []
    ensures var n := |loads| - 1;
            Needed(was, loads, x) <==> Needed(was, loads[..n], x) || (NeedsHook(was, loads, n) && x == loads[n])
  {
    var n := |loads| - 1;
    var front := loads[..n];
    NeedsHookFront(was, loads);
    if Needed(was, front, x) {
      var i :| 0 <= i < n && front[i] == x && NeedsHook(was, front, i);
      assert loads[i] == x && NeedsHook(was, loads, i);
    }
    if Needed(was, loads, x) {
      var i :| 0 <= i < |loads| && loads[i] == x && NeedsHook(was, loads, i);
      assert i < n ==> front[i] == x && NeedsHook(was, front, i);
    }
  }

  /** Later loads do not change which need the hook. */
  lemma NeedsHookFront(was: Book, loads: seq<Load>)
    requires loads != []
    ensures var n := |loads| - 1;
            forall i :: 0 <= i < n ==>
              loads[..n][i] == loads[i] && (NeedsHook(was, loads[..n], i) <==> NeedsHook(was, loads, i))
  {
    var n := |loads| - 1;
    forall i | 0 <= i < n
      ensures NeedsHook(was, loads[..n], i) <==> NeedsHook(was, loads, i)
    {
      assert forall j :: 0 <= j <= i ==> loads[..n][j] == loads[j];
    }
  }

  /** Whether a step hooks is decided by the load alone. */
  lemma LastNeedsHook(was: Book, loads: seq<Load>)
    requires loads != []
    ensures var n := |loads| - 1;
            var b := Refreshed(was, loads[..n]);
            Step(b, loads[n]).hooked == if NeedsHook(was, loads, n) then b.hooked + [loads[n]] else b.hooked
  {
    var n := |loads| - 1;
    KeysApart(was, loads[..n], loads[n].path);
    LastIsFirst(loads);
  }

  /** And it runs at most once for a path. */
  lemma {:induction false} HookedOnce(was: Book, loads: seq<Load>)
    ensures var h := Refreshed(was, loads).hooked;
            && (forall i, j :: 0 <= i < j < |h| ==> h[i].path != h[j].path)
            && (forall i :: 0 <= i < |h| ==> h[i].path in Refreshed(was, loads).seen)
    decreases |loads|
  {
    if loads == [] {
    } else {
      var front, l := loads[..|loads| - 1], loads[|loads| - 1];
      HookedOnce(was, front);
      KeysApart(was, front, l.path);
    }
  }

  /** The hooks run in the order of the loads. */
  lemma {:induction false} HookedInOrder(was: Book, loads: seq<Load>, i: nat, j: nat) returns (p: nat, q: nat)
    requires i < j < |Refreshed(was, loads).hooked|
    ensures p < q < |loads| && NeedsHook(was, loads, p) && NeedsHook(was, loads, q)
    ensures loads[p] == Refreshed(was, loads).hooked[i] && loads[q] == Refreshed(was, loads).hooked[j]
    decreases |loads|
  {
    var n := |loads| - 1;
    var h := Refreshed(was, loads[..n]).hooked;
    LastNeedsHook(was, loads);
    NeedsHookFront(was, loads);
    if j < |h| {
      p, q := HookedInOrder(was, loads[..n], i, j);
    } else {
      q := n;
      HookedExactly(was, loads[..n], h[i]);
      p :| 0 <= p < n && loads[..n][p] == h[i] && NeedsHook(was, loads[..n], p);
    }
  }

  // ---------- the same mappings again ----------

  lemma {:induction false} NothingMoves(was: Book, loads: seq<Load>, k: nat)
    requires k <= |loads|
    ensures var b := Refreshed(was, loads).seen;
            var c := Refreshed(b, loads[..k]);
            c.hooked == [] && forall p :: p in c.seen ==> p in b && c.seen[p] == b[p]
  {
    var b := Refreshed(was, loads).seen;
    if k == 0 {
      assert loads[..0] == [];
    } else {
      var l, front := loads[k - 1], loads[..k - 1];
      assert loads[..k][..k - 1] == front;
      NothingMoves(was, loads, k - 1);
      KeysApart(b, front, l.path);
      KeysApart(was, loads, l.path);
      if !Seen(front, l.path) {
        forall j | 0 <= j < k - 1
          ensures loads[j].path != l.path
        {
          assert front[j] == loads[j];
        }
        FirstBaseKept(was, loads, k - 1);
      }
    }
  }

  /** A second refresh of the same mappings hooks nothing, keeps every entry and drops none. */
  lemma Again(was: Book, loads: seq<Load>)
    ensures var b := Refreshed(was, loads).seen; Refreshed(b, loads) == Books(map[], b, [])
  {
    var b := Refreshed(was, loads).seen;
    var c := Refreshed(b, loads);
    NothingMoves(was, loads, |loads|);
    assert loads[..|loads|] == loads;
    forall p: CStr
      ensures (p in c.seen <==> p in b) && p !in c.known
    {
      KeysApart(b, loads, p);
      KeysApart(was, loads, p);
    }
  }
}
