/** `xh_core_refresh_impl` of `xh_core.c`, on the red-black trees that hold the known libraries. */
module Refresh {
  import opened CString
  import opened RbImage
  import opened RbLinks
  import opened RbInsert
  import opened RbRemove
  import opened RbLookup
  import opened HookFilter
  import opened Reconcile

  /** A parsed line of the mapping list; `isElf` is what checking the header at its base finds. */
  datatype MapLine = MapLine(base: nat, readable: bool, isPrivate: bool, offset: nat, path: CStr, isElf: bool)

  const BRACKET: int := 91

  /** A readable private mapping at file offset 0 of a named, admitted ELF file. */
  ghost predicate Eligible(hooks: seq<HookInfo>, ignores: seq<IgnoreInfo>, l: MapLine) {
    && l.readable && l.isPrivate && l.offset == 0 && l.path != [] && l.path[0] != BRACKET
    && Admitted(hooks, ignores, l.path) && l.isElf
  }

  ghost function Loads(hooks: seq<HookInfo>, ignores: seq<IgnoreInfo>, lines: seq<MapLine>): seq<Load> {
    if lines == [] then []
    else
      var front, l := Loads(hooks, ignores, lines[..|lines| - 1]), lines[|lines| - 1];
      if Eligible(hooks, ignores, l) then front + [Load(l.path, l.base)] else front
  }

  /** What ends up in a hook's base cell: the base of the last eligible mapping, repeated or not. */
  ghost function CellAfter(hooks: seq<HookInfo>, ignores: seq<IgnoreInfo>, lines: seq<MapLine>, c: BaseCell,
                           was: nat): nat
  {
    if lines == [] then was
    else
      var l := lines[|lines| - 1];
      if Eligible(hooks, ignores, l) && hooks[FirstMatch(hooks, l.path)].cell == c then l.base
      else CellAfter(hooks, ignores, lines[..|lines| - 1], c, was)
  }

  /** A line that is unreadable, shared, not at the file's start, without path, of no file, or no ELF file's. */
  predicate Unsuitable(l: MapLine) {
    !l.readable || !l.isPrivate || l.offset != 0 || |l.path| == 0 || l.path[0] == 91 || !l.isElf
  }

  /** Which lines change something: the others, of admitted libraries. */
  lemma EligibleMeans(hooks: seq<HookInfo>, ignores: seq<IgnoreInfo>, l: MapLine)
    ensures Eligible(hooks, ignores, l) <==> !Unsuitable(l) && Admitted(hooks, ignores, l.path)
  {
  }

  /** The lines are looked at in their order, each on its own. */
  lemma {:induction false} LoadsConcat(hooks: seq<HookInfo>, ignores: seq<IgnoreInfo>, a: seq<MapLine>, b: seq<MapLine>)
    ensures Loads(hooks, ignores, a + b) == Loads(hooks, ignores, a) + Loads(hooks, ignores, b)
    decreases |b|
  {
    if b == [] {
      assert a + b == a;
    } else {
      var n := |b| - 1;
      assert (a + b)[..|a| + n] == a + b[..n];
      LoadsConcat(hooks, ignores, a, b[..n]);
    }
  }

  lemma OneLoad(hooks: seq<HookInfo>, ignores: seq<IgnoreInfo>, l: MapLine)
    ensures Loads(hooks, ignores, [l]) ==
            if !Unsuitable(l) && Admitted(hooks, ignores, l.path) then [Load(l.path, l.base)] else []
  {
    assert [l][..0] == [];
  }

  /** A line that is unsuitable, or of a library that is not admitted, changes nothing. */
  lemma Skipped(hooks: seq<HookInfo>, ignores: seq<IgnoreInfo>, was: Book, before: seq<MapLine>, l: MapLine,
                after: seq<MapLine>, c: BaseCell, v: nat)
    requires Unsuitable(l) || !Admitted(hooks, ignores, l.path)
    ensures Loads(hooks, ignores, before + [l] + after) == Loads(hooks, ignores, before + after)
    ensures CellAfter(hooks, ignores, before + [l] + after, c, v) == CellAfter(hooks, ignores, before + after, c, v)
  {
    LoadsConcat(hooks, ignores, before + [l], after);
    LoadsConcat(hooks, ignores, before, [l]);
    LoadsConcat(hooks, ignores, before, after);
    OneLoad(hooks, ignores, l);
    SkippedCell(hooks, ignores, before, l, after, c, v);
  }

  lemma {:induction false} SkippedCell(hooks: seq<HookInfo>, ignores: seq<IgnoreInfo>, before: seq<MapLine>, l: MapLine,
                                       after: seq<MapLine>, c: BaseCell, v: nat)
    requires !Eligible(hooks, ignores, l)
    ensures CellAfter(hooks, ignores, before + [l] + after, c, v) == CellAfter(hooks, ignores, before + after, c, v)
    decreases |after|
  {
    if after == [] {
      assert (before + [l] + after)[..|before|] == before && before + after == before;
    } else {
      var n := |after| - 1;
      SkippedCell(hooks, ignores, before, l, after[..n], c, v);
      assert (before + [l] + after)[..|before| + 1 + n] == before + [l] + after[..n];
      assert (before + after)[..|before| + n] == before + after[..n];
    }
  }

  /** Line `i` writes the cell: it is eligible, and the first hook matching it has this cell. */
  ghost predicate Writes(hooks: seq<HookInfo>, ignores: seq<IgnoreInfo>, l: MapLine, c: BaseCell) {
    && !Unsuitable(l) && Admitted(hooks, ignores, l.path)
    && exists h :: 0 <= h < |hooks| && hooks[h].pattern(l.path) && hooks[h].cell == c
         && forall j :: 0 <= j < h ==> !hooks[j].pattern(l.path)
  }

  lemma WritesMeans(hooks: seq<HookInfo>, ignores: seq<IgnoreInfo>, l: MapLine, c: BaseCell)
    ensures Writes(hooks, ignores, l, c) <==>
            Eligible(hooks, ignores, l) && hooks[FirstMatch(hooks, l.path)].cell == c
  {
    FirstIsLeast(hooks, l.path);
    forall h | 0 <= h < |hooks| && hooks[h].pattern(l.path) && forall j :: 0 <= j < h ==> !hooks[j].pattern(l.path)
      ensures FirstMatch(hooks, l.path) == h
    {
      FirstMatchIsFirst(hooks, l.path, h);
    }
  }

  /** A cell ends with the base of the last line that writes it, the one before `n`, or as it was. */
  lemma {:induction false} CellMeans(hooks: seq<HookInfo>, ignores: seq<IgnoreInfo>, lines: seq<MapLine>, c: BaseCell,
                                     v: nat) returns (n: nat)
    ensures n <= |lines| && forall j :: n <= j < |lines| ==> !Writes(hooks, ignores, lines[j], c)
    ensures if n == 0 then CellAfter(hooks, ignores, lines, c, v) == v
            else Writes(hooks, ignores, lines[n - 1], c) && CellAfter(hooks, ignores, lines, c, v) == lines[n - 1].base
    decreases |lines|
  {
    if lines == [] {
      n := 0;
    } else {
      var last := |lines| - 1;
      WritesMeans(hooks, ignores, lines[last], c);
      if Writes(hooks, ignores, lines[last], c) {
        n := |lines|;
      } else {
        n := CellMeans(hooks, ignores, lines[..last], c, v);
      }
    }
  }

  // ---------- a tree as a book ----------

  /** The nodes are the entries of the book, a node each. */
  ghost predicate Entries(nodes: set<Node>, book: Book)
    reads nodes`baseAddr
  {
    && (forall n :: n in nodes ==> n.pathname in book && book[n.pathname] == n.baseAddr)
    && (forall p :: p in book ==> exists n :: n in nodes && n.pathname == p)
    && (forall a, b :: a in nodes && b in nodes && a.pathname == b.pathname ==> a == b)
  }

  ghost predicate Holds(head: Head, book: Book)
    reads head, Nodes(head.tree)
  {
    head.Valid() && Entries(Nodes(head.tree), book)
  }

  lemma EntriesWithout(nodes: set<Node>, book: Book, n: Node)
    requires Entries(nodes, book) && n in nodes
    ensures Entries(nodes - {n}, book - {n.pathname})
  {
    forall p | p in book - {n.pathname}
      ensures exists x :: x in nodes - {n} && x.pathname == p
    {
      var x :| x in nodes && x.pathname == p;
      assert x in nodes - {n};
    }
  }

  lemma EntriesWith(nodes: set<Node>, book: Book, n: Node)
    requires Entries(nodes, book) && n.pathname !in book
    ensures Entries(nodes + {n}, book[n.pathname := n.baseAddr])
  {
    var next := book[n.pathname := n.baseAddr];
    forall p | p in next
      ensures exists x :: x in nodes + {n} && x.pathname == p
    {
      if p == n.pathname {
        assert n in nodes + {n};
      } else {
        var x :| x in nodes && x.pathname == p;
        assert x in nodes + {n};
      }
    }
  }

  lemma InMiddle(before: seq<Node>, n: Node, after: seq<Node>, x: Node)
    ensures x in before + [n] + after <==> x in before + after || x == n
  {
    assert x in before + [n] + after <==> x in before || x == n || x in after;
  }

  /** In a sorted sequence no node occurs twice. */
  lemma NotTwice(before: seq<Node>, n: Node, after: seq<Node>)
    requires Sorted(before + [n] + after)
    ensures n !in before + after
  {
    var all := before + [n] + after;
    forall i | 0 <= i < |before + after|
      ensures (before + after)[i] != n
    {
      var k := if i < |before| then i else i + 1;
      assert (before + after)[i] == all[k] && all[|before|] == n;
      assert if k < |before| then Less(all[k].pathname, n.pathname) else Less(n.pathname, all[k].pathname);
      StrcmpOrder(n.pathname, n.pathname);
    }
  }

  lemma NodesWithout(t: Tree, u: Tree, before: seq<Node>, n: Node, after: seq<Node>)
    requires Sorted(InOrder(t)) && InOrder(t) == before + [n] + after && InOrder(u) == before + after
    ensures Nodes(u) == Nodes(t) - {n}
  {
    NodesWith(u, t, before, n, after);
    NotTwice(before, n, after);
    NodesInOrder(u);
  }

  lemma NodesWith(t: Tree, u: Tree, before: seq<Node>, n: Node, after: seq<Node>)
    requires InOrder(t) == before + after && InOrder(u) == before + [n] + after
    ensures Nodes(u) == Nodes(t) + {n}
  {
    forall x | x in Nodes(u)
      ensures x in Nodes(t) + {n}
    {
      OneMore(t, u, before, n, after, x);
    }
    forall x | x in Nodes(t) + {n}
      ensures x in Nodes(u)
    {
      OneMore(t, u, before, n, after, x);
    }
  }

  lemma OneMore(t: Tree, u: Tree, before: seq<Node>, n: Node, after: seq<Node>, x: Node)
    requires InOrder(t) == before + after && InOrder(u) == before + [n] + after
    ensures x in Nodes(u) <==> x in Nodes(t) || x == n
  {
    InMiddle(before, n, after, x);
    OneNode(t, x);
    OneNode(u, x);
  }

  lemma OneNode(t: Tree, x: Node)
    ensures x in Nodes(t) <==> x in InOrder(t)
  {
    NodesInOrder(t);
  }

  /** RB_REMOVE, on the book. */
  method TakeOut(head: Head, mi: Node, ghost book: Book)
    requires Holds(head, book) && mi in Nodes(head.tree)
    modifies head, Nodes(head.tree)`left, Nodes(head.tree)`right
    modifies Nodes(head.tree)`parent, Nodes(head.tree)`color
    ensures Holds(head, book - {mi.pathname}) && Nodes(head.tree) == Nodes(old(head.tree)) - {mi}
  {
    ghost var was := head.tree;
    EntriesWithout(Nodes(was), book, mi);
    NodesExist(was);
    ghost var node, before, after;
    node, before, after := Remove(head, mi);
    NodesWithout(was, head.tree, before, mi, after);
  }

  /** RB_INSERT, on the book. */
  method PutIn(head: Head, mi: Node, ghost book: Book) returns (found: Node?)
    requires Holds(head, book) && mi !in Nodes(head.tree)
    modifies head, (Nodes(head.tree) + {mi})`left, (Nodes(head.tree) + {mi})`right
    modifies (Nodes(head.tree) + {mi})`parent, (Nodes(head.tree) + {mi})`color
    ensures found == null <==> mi.pathname !in book
    ensures found == null ==>
      Holds(head, book[mi.pathname := mi.baseAddr]) && Nodes(head.tree) == Nodes(old(head.tree)) + {mi}
    ensures found != null ==> Holds(head, book) && head.tree == old(head.tree)
  {
    ghost var was := head.tree;
    NodesExist(was);
    ghost var before, after;
    found, before, after := Insert(head, mi);
    if found == null {
      assert mi.pathname !in book;
      NodesWith(was, head.tree, before, mi, after);
      EntriesWith(Nodes(was), book, mi);
    }
  }

  /** A library has moved. The tree does not depend on base addresses. */
  method Rebase(head: Head, mi: Node, base: nat, ghost book: Book)
    requires Holds(head, book) && mi in Nodes(head.tree)
    modifies mi`baseAddr
    ensures Holds(head, book[mi.pathname := base])
  {
    ghost var nodes := Nodes(head.tree);
    ghost var m := Snap(nodes);
    mi.baseAddr := base;
    assert Snap(nodes) == m;
    ghost var next := book[mi.pathname := base];
    forall p | p in next
      ensures exists n :: n in nodes && n.pathname == p
    {
    }
  }

  // ---------- two trees ----------

  /** The known libraries not seen again yet, and those seen, in two trees that share nothing. */
  ghost predicate Split(head: Head, refreshed: Head, known: Book, seen: Book)
    reads head, refreshed, Nodes(head.tree), Nodes(refreshed.tree)
  {
    && head != refreshed && Holds(head, known) && Holds(refreshed, seen)
    && Nodes(head.tree) !! Nodes(refreshed.tree) && known.Keys !! seen.Keys
  }

  /** Between leaving one tree and entering the other, the entry is in neither. */
  ghost predicate Loose(head: Head, refreshed: Head, mi: Node, known: Book, seen: Book)
    reads head, refreshed, Nodes(head.tree), Nodes(refreshed.tree)
  {
    && Split(head, refreshed, known, seen) && mi !in Nodes(head.tree) && mi !in Nodes(refreshed.tree)
    && mi.pathname !in known
  }

  method Loosen(head: Head, refreshed: Head, mi: Node, ghost known: Book, ghost seen: Book)
    requires Split(head, refreshed, known, seen) && mi in Nodes(head.tree)
    modifies head, Nodes(head.tree)`left, Nodes(head.tree)`right
    modifies Nodes(head.tree)`parent, Nodes(head.tree)`color
    ensures Loose(head, refreshed, mi, known - {mi.pathname}, seen)
    ensures Nodes(head.tree) == Nodes(old(head.tree)) - {mi} && refreshed.tree == old(refreshed.tree)
    ensures mi.pathname in known && known[mi.pathname] == mi.baseAddr && mi.pathname !in seen
  {
    NodesExist(head.tree);
    NodesExist(refreshed.tree);
    TakeOut(head, mi, known);
  }

  method Fasten(head: Head, refreshed: Head, mi: Node, ghost known: Book, ghost seen: Book) returns (found: Node?)
    requires Loose(head, refreshed, mi, known, seen)
    modifies refreshed, (Nodes(refreshed.tree) + {mi})`left, (Nodes(refreshed.tree) + {mi})`right
    modifies (Nodes(refreshed.tree) + {mi})`parent, (Nodes(refreshed.tree) + {mi})`color
    ensures found == null <==> mi.pathname !in seen
    ensures Split(head, refreshed, known, if found == null then seen[mi.pathname := mi.baseAddr] else seen)
    ensures head.tree == old(head.tree)
    ensures Nodes(refreshed.tree) ==
            if found == null then Nodes(old(refreshed.tree)) + {mi} else Nodes(old(refreshed.tree))
  {
    NodesExist(head.tree);
    NodesExist(refreshed.tree);
    found := PutIn(refreshed, mi, seen);
    assert Holds(head, known);
    KeysWith(known, seen, mi.pathname, mi.baseAddr);
  }

  lemma KeysWith(a: Book, b: Book, path: CStr, base: nat)
    requires a.Keys !! b.Keys && path !in a
    ensures a.Keys !! b[path := base].Keys
  {
  }

  method Move(head: Head, refreshed: Head, mi: Node, base: nat, ghost known: Book, ghost seen: Book)
    requires Split(head, refreshed, known, seen) && mi in Nodes(refreshed.tree)
    modifies mi`baseAddr
    ensures Split(head, refreshed, known, seen[mi.pathname := base])
    ensures head.tree == old(head.tree) && refreshed.tree == old(refreshed.tree)
  {
    NodesExist(head.tree);
    assert mi.pathname in seen;
    assert seen[mi.pathname := base].Keys == seen.Keys;
    Rebase(refreshed, mi, base, seen);
  }

  // ---------- one eligible mapping ----------

  /** A known library, taken over as it is and then moved, or not. */
  method Transfer(head: Head, refreshed: Head, mi: Node, ghost known: Book, ghost seen: Book)
    requires Split(head, refreshed, known, seen) && mi in Nodes(head.tree)
    modifies head, refreshed, Nodes(head.tree)`left, Nodes(head.tree)`right
    modifies Nodes(head.tree)`parent, Nodes(head.tree)`color
    modifies Nodes(refreshed.tree)`left, Nodes(refreshed.tree)`right
    modifies Nodes(refreshed.tree)`parent, Nodes(refreshed.tree)`color
    ensures Nodes(head.tree) == Nodes(old(head.tree)) - {mi}
    ensures Nodes(refreshed.tree) == Nodes(old(refreshed.tree)) + {mi}
    ensures mi.pathname in known && known[mi.pathname] == mi.baseAddr && mi.pathname !in seen
    ensures Split(head, refreshed, known - {mi.pathname}, seen[mi.pathname := mi.baseAddr])
  {
    NodesExist(refreshed.tree);
    Loosen(head, refreshed, mi, known, seen);
    var found := Fasten(head, refreshed, mi, known - {mi.pathname}, seen);
  }

  /** A step over a known library, as the two tree operations and the new base make it. */
  lemma StepKnown(b: Books, path: CStr, base: nat)
    requires path in b.known && path !in b.seen
    ensures var c := Step(b, Load(path, base));
            && c.known == b.known - {path}
            && c.seen == b.seen[path := b.known[path]][path := base]
            && (base == b.known[path] ==> c.seen == b.seen[path := b.known[path]])
            && c.hooked == if b.known[path] != base then b.hooked + [Load(path, base)] else b.hooked
  {
  }

  /**
   What becomes of the entries: those of both trees and the new ones are in the trees again or dropped;
   none enters the first tree, none leaves the second, and only a new one is dropped.
   */
  ghost predicate Shifted(head0: set<Node>, seen0: set<Node>, head: set<Node>, seen: set<Node>, made: set<Node>,
                          dropped: Node?)
  {
    && head <= head0 && seen0 <= seen && head + seen + Opt(dropped) == head0 + seen0 + made
    && Opt(dropped) <= made && dropped !in seen
  }

  lemma ShiftedOver(head: set<Node>, seen: set<Node>, mi: Node)
    requires mi in head && mi !in seen
    ensures Shifted(head, seen, head - {mi}, seen + {mi}, {}, null)
  {
    assert head - {mi} + (seen + {mi}) + Opt(null) == head + seen + {};
  }

  lemma ShiftedIn(head: set<Node>, seen: set<Node>, mi: Node)
    requires mi !in head + seen
    ensures Shifted(head, seen, head, seen + {mi}, {mi}, null) && Shifted(head, seen, head, seen, {mi}, mi)
  {
    assert head + (seen + {mi}) + Opt(null) == head + seen + {mi};
  }

  /** The branch for a library that is known: it moves over; the duplicate branch is not reachable. */
  method MoveOver(head: Head, refreshed: Head, mi: Node, base: nat, ghost b: Books) returns (hook: bool)
    requires Split(head, refreshed, b.known, b.seen) && mi in Nodes(head.tree)
    modifies head, refreshed, Nodes(head.tree), Nodes(refreshed.tree)`left, Nodes(refreshed.tree)`right
    modifies Nodes(refreshed.tree)`parent, Nodes(refreshed.tree)`color
    ensures Shifted(Nodes(old(head.tree)), Nodes(old(refreshed.tree)), Nodes(head.tree), Nodes(refreshed.tree), {},
                    null)
    ensures mi in Nodes(refreshed.tree)
    ensures var c := Step(b, Load(mi.pathname, base));
            && Split(head, refreshed, c.known, c.seen)
            && c.hooked == if hook then b.hooked + [Load(mi.pathname, base)] else b.hooked
  {
    ShiftedOver(Nodes(head.tree), Nodes(refreshed.tree), mi);
    Transfer(head, refreshed, mi, b.known, b.seen);
    StepKnown(b, mi.pathname, base);
    hook := mi.baseAddr != base;
    ghost var left, seen := Nodes(head.tree), Nodes(refreshed.tree);
    if hook {
      Move(head, refreshed, mi, base, b.known - {mi.pathname}, b.seen[mi.pathname := mi.baseAddr]);
    }
    assert Nodes(head.tree) == left && Nodes(refreshed.tree) == seen;
  }

  /** The branch for a library that is not: a new entry, dropped at once if it is a repetition. */
  method AddNew(head: Head, refreshed: Head, l: Load, ghost b: Books)
    returns (hook: bool, dropped: Node?, ghost made: set<Node>)
    requires Split(head, refreshed, b.known, b.seen) && l.path !in b.known
    modifies refreshed, Nodes(refreshed.tree)`left, Nodes(refreshed.tree)`right
    modifies Nodes(refreshed.tree)`parent, Nodes(refreshed.tree)`color
    ensures Shifted(Nodes(old(head.tree)), Nodes(old(refreshed.tree)), Nodes(head.tree), Nodes(refreshed.tree), made,
                    dropped)
    ensures fresh(made)
    ensures var c := Step(b, l);
            Split(head, refreshed, c.known, c.seen) && c.hooked == if hook then b.hooked + [l] else b.hooked
  {
    NodesExist(head.tree);
    NodesExist(refreshed.tree);
    var mi := new Node(l.path, l.base);
    made := {mi};
    ShiftedIn(Nodes(head.tree), Nodes(refreshed.tree), mi);
    dropped := null;
    var found := Fasten(head, refreshed, mi, b.known, b.seen);
    hook := found == null;
    if found != null {
      dropped := mi;
    }
  }

  /** An eligible mapping. `dropped` is an entry that is freed, if any. */
  method TakeLoad(head: Head, refreshed: Head, l: Load, ghost b: Books)
    returns (hook: bool, dropped: Node?, ghost made: set<Node>)
    requires Split(head, refreshed, b.known, b.seen)
    modifies head, refreshed, Nodes(head.tree), Nodes(refreshed.tree)`left, Nodes(refreshed.tree)`right
    modifies Nodes(refreshed.tree)`parent, Nodes(refreshed.tree)`color
    ensures Split(head, refreshed, Step(b, l).known, Step(b, l).seen)
    ensures Step(b, l).hooked == if hook then b.hooked + [l] else b.hooked
    ensures Shifted(Nodes(old(head.tree)), Nodes(old(refreshed.tree)), Nodes(head.tree), Nodes(refreshed.tree), made,
                    dropped)
    ensures fresh(made)
  {
    dropped, made := null, {};
    NodesExist(head.tree);
    NodesExist(refreshed.tree);
    ghost var steps;
    var mi;
    mi, steps := Find(head, l.path);
    if mi != null {
      hook := MoveOver(head, refreshed, mi, l.base, b);
    } else {
      hook, dropped, made := AddNew(head, refreshed, l, b);
    }
  }

  // ---------- the whole refresh ----------

  /** The tests on a line, in the source's order: the search of the hooks before the ELF header. */
  method CheckLine(hooks: seq<HookInfo>, ignores: seq<IgnoreInfo>, l: MapLine) returns (ok: bool, i: nat)
    ensures ok <==> Eligible(hooks, ignores, l)
    ensures ok ==> i == FirstMatch(hooks, l.path) < |hooks|
  {
    i := 0;
    if !l.readable || !l.isPrivate || l.offset != 0 || l.path == [] || l.path[0] == BRACKET {
      return false, i;
    }
    ok, i := FindHook(hooks, ignores, l.path);
    ok := ok && l.isElf;
  }

  /** The rest of the loop's body for an eligible line: the hook's base cell is written first. */
  method TakeLine(head: Head, refreshed: Head, cell: BaseCell?, l: Load, ghost b: Books, ghost cells: set<BaseCell>)
    returns (hook: bool, dropped: Node?, ghost made: set<Node>)
    requires Split(head, refreshed, b.known, b.seen) && (cell != null ==> cell in cells)
    modifies head, refreshed, Nodes(head.tree), Nodes(refreshed.tree), cells
    ensures Split(head, refreshed, Step(b, l).known, Step(b, l).seen)
    ensures Step(b, l).hooked == if hook then b.hooked + [l] else b.hooked
    ensures Shifted(Nodes(old(head.tree)), Nodes(old(refreshed.tree)), Nodes(head.tree), Nodes(refreshed.tree), made,
                    dropped)
    ensures fresh(made)
    ensures forall c :: c in cells ==> c.value == if c == cell then l.base else old(c.value)
  {
    ghost var left, seen := Nodes(head.tree), Nodes(refreshed.tree);
    if cell != null {
      cell.value := l.base;
    }
    assert left == Nodes(head.tree) && seen == Nodes(refreshed.tree);
    hook, dropped, made := TakeLoad(head, refreshed, l, b);
  }

  /** Every entry is kept or freed, no entry both, none freed twice. */
  ghost predicate Conserved(kept: set<Node>, freed: seq<Node>, all: set<Node>) {
    && kept <= all && (forall n :: n in all ==> n in kept || n in freed)
    && (forall n :: n in freed ==> n in all && n !in kept)
    && (forall i, j :: 0 <= i < j < |freed| ==> freed[i] != freed[j])
  }

  /** In the middle of a refresh: all entries, known or created, are in the trees or freed; no known one is yet. */
  ghost predicate Accounted(head: set<Node>, seen: set<Node>, known: set<Node>, created: set<Node>, freed: seq<Node>) {
    && head <= known && known !! created && Conserved(head + seen, freed, known + created)
    && (forall n :: n in freed ==> n in created)
  }

  lemma Counted(head0: set<Node>, seen0: set<Node>, head: set<Node>, seen: set<Node>, made: set<Node>, dropped: Node?,
                known: set<Node>, created: set<Node>, freed: seq<Node>)
    requires Accounted(head0, seen0, known, created, freed) && Shifted(head0, seen0, head, seen, made, dropped)
    requires made !! known + created
    ensures Accounted(head, seen, known, created + made, if dropped != null then freed + [dropped] else freed)
  {
    var freed' := if dropped != null then freed + [dropped] else freed;
    assert forall n :: n in freed' ==> n in freed || n == dropped;
    assert dropped != null ==> dropped in made && dropped !in head;
  }

  /** What a line does to the books. */
  ghost function Turned(hooks: seq<HookInfo>, ignores: seq<IgnoreInfo>, l: MapLine, b: Books): Books {
    if Eligible(hooks, ignores, l) then Step(b, Load(l.path, l.base)) else b
  }

  /** The body of the loop over the mapping list. */
  method Turn(head: Head, refreshed: Head, hooks: seq<HookInfo>, ignores: seq<IgnoreInfo>, l: MapLine,
              ghost b: Books, ghost cells: set<BaseCell>)
    returns (hook: bool, dropped: Node?, ghost made: set<Node>)
    requires Split(head, refreshed, b.known, b.seen)
    requires forall i :: 0 <= i < |hooks| && hooks[i].cell != null ==> hooks[i].cell in cells
    modifies head, refreshed, Nodes(head.tree), Nodes(refreshed.tree), cells
    ensures var c := Turned(hooks, ignores, l, b);
            && Split(head, refreshed, c.known, c.seen)
            && c.hooked == if hook then b.hooked + [Load(l.path, l.base)] else b.hooked
    ensures Shifted(Nodes(old(head.tree)), Nodes(old(refreshed.tree)), Nodes(head.tree), Nodes(refreshed.tree), made,
                    dropped)
    ensures fresh(made)
    ensures forall c :: c in cells ==> c.value == CellAfter(hooks, ignores, [l], c, old(c.value))
  {
    hook, dropped, made := false, null, {};
    NodesExist(head.tree);
    NodesExist(refreshed.tree);
    var ok, h := CheckLine(hooks, ignores, l);
    OneCell(hooks, ignores, l);
    if ok {
      hook, dropped, made := TakeLine(head, refreshed, hooks[h].cell, Load(l.path, l.base), b, cells);
    }
  }

  lemma OneCell(hooks: seq<HookInfo>, ignores: seq<IgnoreInfo>, l: MapLine)
    ensures forall c: BaseCell, v: nat :: CellAfter(hooks, ignores, [l], c, v) ==
              if Eligible(hooks, ignores, l) && hooks[FirstMatch(hooks, l.path)].cell == c then l.base else v
  {
    assert [l][..0] == [];
    forall c: BaseCell, v: nat
      ensures CellAfter(hooks, ignores, [], c, v) == v
    {
    }
  }

  /** The same, with the entry that is freed, if any, joining those freed before. */
  method CountedTurn(head: Head, refreshed: Head, hooks: seq<HookInfo>, ignores: seq<IgnoreInfo>, l: MapLine,
                     freed: seq<Node>, ghost b: Books, ghost known: set<Node>, ghost created: set<Node>,
                     ghost cells: set<BaseCell>)
    returns (hook: bool, freedNow: seq<Node>, ghost made: set<Node>)
    requires Split(head, refreshed, b.known, b.seen)
    requires Accounted(Nodes(head.tree), Nodes(refreshed.tree), known, created, freed)
    requires forall i :: 0 <= i < |hooks| && hooks[i].cell != null ==> hooks[i].cell in cells
    modifies head, refreshed, Nodes(head.tree), Nodes(refreshed.tree), cells
    ensures var c := Turned(hooks, ignores, l, b);
            && Split(head, refreshed, c.known, c.seen)
            && c.hooked == if hook then b.hooked + [Load(l.path, l.base)] else b.hooked
    ensures Accounted(Nodes(head.tree), Nodes(refreshed.tree), known, created + made, freedNow) && fresh(made)
    ensures Nodes(head.tree) <= Nodes(old(head.tree)) && Nodes(refreshed.tree) <= known + created + made
    ensures forall c :: c in cells ==> c.value == CellAfter(hooks, ignores, [l], c, old(c.value))
  {
    ghost var head0, seen0 := Nodes(head.tree), Nodes(refreshed.tree);
    var dropped;
    hook, dropped, made := Turn(head, refreshed, hooks, ignores, l, b, cells);
    freedNow := if dropped != null then freed + [dropped] else freed;
    Counted(head0, seen0, Nodes(head.tree), Nodes(refreshed.tree), made, dropped, known, created, freed);
  }

  lemma OneMoreLine(hooks: seq<HookInfo>, ignores: seq<IgnoreInfo>, lines: seq<MapLine>, i: nat, was: Book)
    requires i < |lines|
    ensures var b := Refreshed(was, Loads(hooks, ignores, lines[..i]));
            Refreshed(was, Loads(hooks, ignores, lines[..i + 1])) == Turned(hooks, ignores, lines[i], b)
    ensures forall c: BaseCell, v: nat ::
              CellAfter(hooks, ignores, lines[..i + 1], c, v) ==
              CellAfter(hooks, ignores, [lines[i]], c, CellAfter(hooks, ignores, lines[..i], c, v))
  {
    assert lines[..i + 1][..i] == lines[..i];
    var loads, l := Loads(hooks, ignores, lines[..i]), lines[i];
    assert (loads + [Load(l.path, l.base)])[..|loads|] == loads;
    assert [l][..0] == [];
    forall c: BaseCell, v: nat
      ensures CellAfter(hooks, ignores, lines[..i + 1], c, v) ==
              CellAfter(hooks, ignores, [lines[i]], c, CellAfter(hooks, ignores, lines[..i], c, v))
    {
      var w := CellAfter(hooks, ignores, lines[..i], c, v);
      assert CellAfter(hooks, ignores, [], c, w) == w;
    }
  }

  /** The loop over the mapping list. */
  method TakeLines(head: Head, refreshed: Head, hooks: seq<HookInfo>, ignores: seq<IgnoreInfo>, lines: seq<MapLine>,
                   ghost was: Book, ghost cells: set<BaseCell>)
    returns (hooked: seq<Load>, freed: seq<Node>, ghost created: set<Node>)
    requires Split(head, refreshed, was, map[]) && refreshed.tree == E
    requires forall i :: 0 <= i < |hooks| && hooks[i].cell != null ==> hooks[i].cell in cells
    modifies head, refreshed, Nodes(head.tree), cells
    ensures var b := Refreshed(was, Loads(hooks, ignores, lines));
            Split(head, refreshed, b.known, b.seen) && hooked == b.hooked
    ensures Accounted(Nodes(head.tree), Nodes(refreshed.tree), Nodes(old(head.tree)), created, freed) && fresh(created)
    ensures forall c :: c in cells ==> c.value == CellAfter(hooks, ignores, lines, c, old(c.value))
  {
    NodesExist(head.tree);
    ghost var known := Nodes(head.tree);
    hooked, freed, created := [], [], {};
    var i := 0;
    assert lines[..0] == [];
    ghost var b := Refreshed(was, Loads(hooks, ignores, lines[..0]));
    while i < |lines|
      invariant i <= |lines| && b == Refreshed(was, Loads(hooks, ignores, lines[..i])) && hooked == b.hooked
      invariant Split(head, refreshed, b.known, b.seen)
      invariant Accounted(Nodes(head.tree), Nodes(refreshed.tree), known, created, freed)
      invariant Nodes(refreshed.tree) <= known + created && fresh(created)
      invariant forall c :: c in cells ==> c.value == CellAfter(hooks, ignores, lines[..i], c, old(c.value))
    {
      OneMoreLine(hooks, ignores, lines, i, was);
      var hook;
      ghost var made;
      hook, freed, made := CountedTurn(head, refreshed, hooks, ignores, lines[i], freed, b, known, created, cells);
      created := created + made;
      if hook {
        hooked := hooked + [Load(lines[i].path, lines[i].base)];
      }
      b := Turned(hooks, ignores, lines[i], b);
      i := i + 1;
    }
    assert lines[..i] == lines;
  }

  /** The head takes over the new tree. */
  method Adopt(head: Head, refreshed: Head, ghost book: Book)
    requires Holds(refreshed, book) && head != refreshed
    modifies head
    ensures Holds(head, book) && head.tree == refreshed.tree
  {
    NodesExist(refreshed.tree);
    ghost var m := Snap(Nodes(refreshed.tree));
    head.root := refreshed.root;
    head.tree := refreshed.tree;
    assert Snap(Nodes(head.tree)) == m;
  }

  /**
   xh_core_refresh_impl, with every allocation granted: the head ends up with each eligible path at its
   first base and the hook has run for the new and the moved ones. Of the entries known before and those
   created on the way each is in the tree or was freed, once; of the known ones those not seen were freed.
   */
  method RefreshImpl(head: Head, hooks: seq<HookInfo>, ignores: seq<IgnoreInfo>, openOk: bool, lines: seq<MapLine>,
                     ghost was: Book, ghost cells: set<BaseCell>)
    returns (hooked: seq<Load>, freed: seq<Node>, ghost created: set<Node>)
    requires Holds(head, was)
    requires forall i :: 0 <= i < |hooks| && hooks[i].cell != null ==> hooks[i].cell in cells
    modifies head, Nodes(head.tree), cells
    ensures !openOk ==> Holds(head, was) && hooked == [] && freed == [] && created == {}
    ensures openOk ==>
      var b := Refreshed(was, Loads(hooks, ignores, lines));
      && Holds(head, b.seen) && hooked == b.hooked
      && Conserved(Nodes(head.tree), freed, Nodes(old(head.tree)) + created)
      && (forall n :: n in Nodes(old(head.tree)) ==> (n in freed <==> !Seen(Loads(hooks, ignores, lines), n.pathname)))
      && (forall c :: c in cells ==> c.value == CellAfter(hooks, ignores, lines, c, old(c.value)))
    ensures fresh(created)
  {
    hooked, freed, created := [], [], {};
    if !openOk {
      return;
    }
    NodesExist(head.tree);
    var refreshed := new Head();
    ghost var known := Nodes(head.tree);
    ghost var loads := Loads(hooks, ignores, lines);
    hooked, freed, created := TakeLines(head, refreshed, hooks, ignores, lines, was, cells);
    AllAccounted(head, refreshed, was, loads, known);
    FreedOnce(head.tree, Nodes(refreshed.tree), known, created, freed);
    var missing := Sweep(head, refreshed, Refreshed(was, loads).seen);
    Adopt(head, refreshed, Refreshed(was, loads).seen);
    freed := freed + missing;
  }

  /** All missing entries are removed and freed; the other tree stays. */
  method Sweep(head: Head, refreshed: Head, ghost book: Book) returns (missing: seq<Node>)
    requires head.Valid() && Holds(refreshed, book) && head != refreshed && Nodes(head.tree) !! Nodes(refreshed.tree)
    modifies head, Nodes(head.tree)
    ensures missing == InOrder(old(head.tree)) && Holds(refreshed, book) && refreshed.tree == old(refreshed.tree)
  {
    NodesExist(head.tree);
    NodesExist(refreshed.tree);
    missing := RemoveEach(head);
  }

  /** An old entry was seen again exactly if it is not among those left. */
  lemma AllAccounted(head: Head, refreshed: Head, was: Book, loads: seq<Load>, known: set<Node>)
    requires Split(head, refreshed, Refreshed(was, loads).known, Refreshed(was, loads).seen)
    requires Nodes(head.tree) <= known <= Nodes(head.tree) + Nodes(refreshed.tree)
    ensures forall n :: n in known ==> (n in Nodes(head.tree) <==> !Seen(loads, n.pathname))
  {
    forall n | n in known
      ensures n in Nodes(head.tree) <==> !Seen(loads, n.pathname)
    {
      KeysApart(was, loads, n.pathname);
    }
  }

  /** The entries left in the first tree are freed as well: then all are kept or freed, once. */
  lemma FreedOnce(left: Tree, seen: set<Node>, known: set<Node>, created: set<Node>, freed: seq<Node>)
    requires Accounted(Nodes(left), seen, known, created, freed) && Nodes(left) !! seen && Sorted(InOrder(left))
    ensures Conserved(seen, freed + InOrder(left), known + created)
    ensures forall n :: n in known ==> (n in freed + InOrder(left) <==> n in Nodes(left))
  {
    var missing := InOrder(left);
    NodesInOrder(left);
    forall i, j | 0 <= i < j < |missing|
      ensures missing[i] != missing[j]
    {
      StrcmpOrder(missing[i].pathname, missing[j].pathname);
    }
    FreedTogether(Nodes(left), seen, known + created, freed, missing);
  }

  lemma FreedTogether(left: set<Node>, seen: set<Node>, all: set<Node>, freed: seq<Node>, missing: seq<Node>)
    requires Conserved(left + seen, freed, all) && left !! seen
    requires forall n :: n in missing <==> n in left
    requires forall i, j :: 0 <= i < j < |missing| ==> missing[i] != missing[j]
    ensures Conserved(seen, freed + missing, all)
    ensures forall n :: n in freed + missing <==> n in freed || n in left
  {
    TwoLists(freed, missing);
  }

  lemma TwoLists(a: seq<Node>, b: seq<Node>)
    requires forall i, j :: 0 <= i < j < |a| ==> a[i] != a[j]
    requires forall i, j :: 0 <= i < j < |b| ==> b[i] != b[j]
    requires forall n :: n in a ==> n !in b
    ensures forall n :: n in a + b <==> n in a || n in b
    ensures forall i, j :: 0 <= i < j < |a + b| ==> (a + b)[i] != (a + b)[j]
  {
    forall i, j | 0 <= i < j < |a + b|
      ensures (a + b)[i] != (a + b)[j]
    {
      assert i < |a| <= j ==> (a + b)[i] in a && (a + b)[j] in b;
    }
  }
}
