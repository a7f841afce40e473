/** Searching, walking and emptying the tree: RB_FIND to RB_FOREACH_SAFE. */
module RbLookup {
  import opened CString
  import opened Bits
  import opened RbImage
  import opened RbLinks
  import opened RbInsert
  import opened RbRemove

  ghost function First(s: seq<Node>): Node? {
    if s == [] then null else s[0]
  }

  ghost function Last(s: seq<Node>): Node? {
    if s == [] then null else s[|s| - 1]
  }

  ghost predicate NextAt(s: seq<Node>, i: int, a: Node, b: Node?) {
    0 <= i < |s| && s[i] == a && b == if i + 1 < |s| then s[i + 1] else null
  }

  ghost predicate PrevAt(s: seq<Node>, i: int, a: Node, b: Node?) {
    0 <= i < |s| && s[i] == a && b == if i > 0 then s[i - 1] else null
  }

  /** `b` stands right behind `a`, or is null where `a` is the last. */
  ghost predicate IsNext(s: seq<Node>, a: Node, b: Node?) {
    exists i :: NextAt(s, i, a, b)
  }

  /** `b` stands right before `a`, or is null where `a` is the first. */
  ghost predicate IsPrev(s: seq<Node>, a: Node, b: Node?) {
    exists i :: PrevAt(s, i, a, b)
  }

  lemma Neighbours(before: seq<Node>, a: Node, after: seq<Node>)
    ensures IsNext(before + [a] + after, a, First(after)) && IsPrev(before + [a] + after, a, Last(before))
  {
    assert NextAt(before + [a] + after, |before|, a, First(after));
    assert PrevAt(before + [a] + after, |before|, a, Last(before));
  }

  lemma StepsBound(t: Tree, steps: nat)
    requires RedBlack(t) && steps <= Height(t)
    ensures Pow2(steps) <= (|InOrder(t)| + 1) * (|InOrder(t)| + 1)
  {
    HeightBound(t);
    Pow2Monotone(steps, Height(t));
  }

  /** How many nodes the key is compared with on the way down: those of the search path. */
  ghost function PathLength(t: Tree, key: CStr): nat {
    if t.E? then 0
    else if Strcmp(key, t.n.pathname) < 0 then 1 + PathLength(t.l, key)
    else if Strcmp(key, t.n.pathname) > 0 then 1 + PathLength(t.r, key)
    else 1
  }

  /** RB_FIND: the node with the key, in at most 2 lg(n + 1) comparisons. */
  method Find(head: Head, key: CStr) returns (found: Node?, ghost steps: nat)
    requires head.Valid()
    ensures found != null ==> found in Nodes(head.tree) && found.pathname == key
    ensures found == null ==> forall n :: n in Nodes(head.tree) ==> n.pathname != key
    ensures Pow2(steps) <= (|InOrder(head.tree)| + 1) * (|InOrder(head.tree)| + 1)
    ensures steps == PathLength(head.tree, key)
  {
    var tmp := head.root;
    ghost var k, t := Top, head.tree;
    steps := 0;
    NodesExist(head.tree);
    while tmp != null
      invariant Plug(k, t) == head.tree && tmp == Root(t) && Straddles(k, key)
      invariant steps + Height(t) <= Height(head.tree)
      invariant steps + PathLength(t, key) == PathLength(head.tree, key)
      decreases t
    {
      Look(head, k, t);
      StraddlesDown(k, t, key);
      StrcmpOrder(key, tmp.pathname);
      var comp := Strcmp(key, tmp.pathname);
      steps := steps + 1;
      if comp < 0 {
        tmp := tmp.left;
        k, t := L(k, t.n, t.c, t.r), t.l;
      } else if comp > 0 {
        tmp := tmp.right;
        k, t := R(t.l, t.n, t.c, k), t.r;
      } else {
        StepsBound(head.tree, steps);
        return tmp, steps;
      }
    }
    StepsBound(head.tree, steps);
    found := null;
    StraddlesEmpty(k, key);
  }

  /** `found` is the least node with a key not below `key`; null means there is none. */
  ghost predicate IsLeast(t: Tree, key: CStr, found: Node?) {
    && (found != null ==> found in Nodes(t) && !Less(found.pathname, key))
    && (forall n :: n in Nodes(t) && !Less(n.pathname, key) ==>
          found != null && (n == found || Less(found.pathname, n.pathname)))
  }

  /** A node at the focus with the key is the least not below it. */
  lemma FocusIsLeast(k: Ctx, t: Tree, key: CStr)
    requires t.T? && Sorted(InOrder(Plug(k, t))) && t.n.pathname == key
    ensures IsLeast(Plug(k, t), key, t.n)
  {
    PlugNodes(k, t);
    StrcmpOrder(key, key);
    forall n | n in Nodes(Plug(k, t))
      ensures n == t.n || Less(n.pathname, t.n.pathname) || Less(t.n.pathname, n.pathname)
    {
      var i := NodeIndex(Plug(k, t), n);
      RemovedOrder(k, t);
      assert InOrder(Plug(k, t))[|Before(k) + InOrder(t.l)|] == t.n;
    }
  }

  lemma FirstAfterBelow(k: Ctx, key: CStr, n: Node)
    requires Straddles(k, key) && Sorted(InOrder(Plug(k, E)))
    requires n in Nodes(Plug(k, E)) && !Less(n.pathname, key)
    ensures After(k) != [] && (n == After(k)[0] || Less(After(k)[0].pathname, n.pathname))
  {
    EmptyFocusOrder(k);
    var s, a := InOrder(Plug(k, E)), |Before(k)|;
    var i := NodeIndex(Plug(k, E), n);
    assert forall j :: 0 <= j < a ==> s[j] == Before(k)[j];
    assert s[a] == After(k)[0];
  }

  /** With an empty focus, the first node after it is the least of those not below the key. */
  lemma FirstAfterIsLeast(k: Ctx, key: CStr)
    requires Straddles(k, key) && Sorted(InOrder(Plug(k, E)))
    ensures IsLeast(Plug(k, E), key, First(After(k)))
  {
    forall n | n in Nodes(Plug(k, E)) && !Less(n.pathname, key)
      ensures After(k) != [] && (n == After(k)[0] || Less(After(k)[0].pathname, n.pathname))
    {
      FirstAfterBelow(k, key, n);
    }
    if After(k) != [] {
      AfterListed(k);
      StrcmpOrder(key, After(k)[0].pathname);
      StrcmpOrder(After(k)[0].pathname, key);
    }
  }

  lemma AfterListed(k: Ctx)
    requires After(k) != []
    ensures After(k)[0] in Nodes(Plug(k, E))
  {
    EmptyFocusOrder(k);
    IndexNode(Plug(k, E), |Before(k)|);
  }

  /** RB_NFIND: the least node not below the key, within the same bound. */
  method Nfind(head: Head, key: CStr) returns (found: Node?, ghost steps: nat)
    requires head.Valid()
    ensures IsLeast(head.tree, key, found)
    ensures Pow2(steps) <= (|InOrder(head.tree)| + 1) * (|InOrder(head.tree)| + 1)
    ensures steps == PathLength(head.tree, key)
  {
    var exact, res;
    ghost var k, t;
    exact, res, steps, k, t := NfindDown(head, key);
    StepsBound(head.tree, steps);
    if exact != null {
      FocusIsLeast(k, t, key);
      return exact, steps;
    }
    FirstAfterIsLeast(k, key);
    found := res;
  }

  /** Its loop: an exact match, or an empty place and the last node a left turn was taken at. */
  method NfindDown(head: Head, key: CStr)
    returns (exact: Node?, res: Node?, ghost steps: nat, ghost k: Ctx, ghost t: Tree)
    requires head.Valid()
    ensures Plug(k, t) == head.tree && Straddles(k, key) && exact == Root(t) && res == First(After(k))
    ensures exact != null ==> exact.pathname == key
    ensures steps <= Height(head.tree) && steps == PathLength(head.tree, key)
  {
    var tmp := head.root;
    res, steps, k, t := null, 0, Top, head.tree;
    NodesExist(head.tree);
    while tmp != null
      invariant Plug(k, t) == head.tree && tmp == Root(t) && Straddles(k, key)
      invariant res == First(After(k))
      invariant steps + Height(t) <= Height(head.tree)
      invariant steps + PathLength(t, key) == PathLength(head.tree, key)
      decreases t
    {
      Look(head, k, t);
      StraddlesDown(k, t, key);
      StrcmpOrder(key, tmp.pathname);
      var comp := Strcmp(key, tmp.pathname);
      steps := steps + 1;
      if comp < 0 {
        res := tmp;
        tmp := tmp.left;
        k, t := L(k, t.n, t.c, t.r), t.l;
      } else if comp > 0 {
        tmp := tmp.right;
        k, t := R(t.l, t.n, t.c, k), t.r;
      } else {
        exact := tmp;
        return;
      }
    }
    exact := null;
  }

  /** RB_MINMAX: the first node, or the last. */
  method MinMax(head: Head, val: int) returns (parent: Node?)
    requires head.Valid()
    ensures parent == if val < 0 then First(InOrder(head.tree)) else Last(InOrder(head.tree))
  {
    var tmp := head.root;
    parent := null;
    ghost var k, t := Top, head.tree;
    NodesExist(head.tree);
    while tmp != null
      invariant Plug(k, t) == head.tree && tmp == Root(t) && parent == CParent(k)
      invariant val < 0 ==> Before(k) == [] && parent == First(After(k))
      invariant val >= 0 ==> After(k) == [] && parent == Last(Before(k))
      decreases t
    {
      Look(head, k, t);
      parent := tmp;
      if val < 0 {
        tmp := tmp.left;
        k, t := L(k, t.n, t.c, t.r), t.l;
      } else {
        tmp := tmp.right;
        k, t := R(t.l, t.n, t.c, k), t.r;
      }
    }
    EmptyFocusOrder(k);
  }

  /** RB_NEXT: the node after `elm` in the order, found through the links alone. */
  method Next(elm: Node, ghost head: Head) returns (next: Node?, ghost before: seq<Node>, ghost after: seq<Node>)
    requires head.Valid() && elm in Nodes(head.tree)
    ensures IsNext(InOrder(head.tree), elm, next)
    ensures InOrder(head.tree) == before + [elm] + after
    ensures next == First(after)
  {
    ghost var k, t := Focus(Top, head.tree, elm);
    NodesExist(head.tree);
    Look(head, k, t);
    RemovedOrder(k, t);
    before, after := Before(k) + InOrder(t.l), InOrder(t.r) + After(k);
    Neighbours(before, elm, after);
    if elm.right != null {
      next := LeftEnd(elm.right, head, R(t.l, t.n, t.c, k), t.r);
    } else {
      next := FirstAfter(elm, head, k, t);
    }
  }

  /** Down the left links: the first node of a subtree. */
  method LeftEnd(from: Node, ghost head: Head, ghost k0: Ctx, ghost t0: Tree) returns (elm: Node)
    requires Shows(head, Plug(k0, t0)) && t0.T? && t0.n == from
    ensures elm == First(InOrder(t0) + After(k0)) && InOrder(t0) != []
  {
    elm := from;
    ghost var k, t := k0, t0;
    NodesExist(Plug(k, t));
    Look(head, k, t);
    while elm.left != null
      invariant Plug(k, t) == Plug(k0, t0) && t.T? && t.n == elm && elm.left == Root(t.l)
      invariant First(InOrder(t)) == First(InOrder(t0)) && InOrder(t) != [] && InOrder(t0) != []
      decreases t
    {
      elm := elm.left;
      k, t := L(k, t.n, t.c, t.r), t.l;
      Look(head, k, t);
    }
  }

  /** Up the parent links, past right turns: the first node after a subtree. */
  method FirstAfter(from: Node, ghost head: Head, ghost k0: Ctx, ghost t0: Tree) returns (next: Node?)
    requires Shows(head, Plug(k0, t0)) && t0.T? && t0.n == from
    ensures next == First(After(k0))
  {
    var elm := from;
    ghost var k, t := k0, t0;
    NodesExist(Plug(k, t));
    Look(head, k, t);
    if elm.parent != null && elm == elm.parent.left {
      return elm.parent;
    }
    while elm.parent != null && elm == elm.parent.right
      invariant Plug(k, t) == Plug(k0, t0) && t.T? && t.n == elm && After(k) == After(k0)
      invariant elm.parent == CParent(k)
      invariant !k.Top? ==> k.n.left == Frame(k, elm).left && k.n.right == Frame(k, elm).right
      invariant k.L? ==> Root(k.r) != elm
      decreases Depth(k)
    {
      elm := elm.parent;
      k, t := k.up, Hang(k, t);
      Look(head, k, t);
    }
    next := elm.parent;
  }

  /** RB_PREV: the node before `elm` in the order. */
  method Prev(elm: Node, ghost head: Head) returns (prev: Node?, ghost before: seq<Node>, ghost after: seq<Node>)
    requires head.Valid() && elm in Nodes(head.tree)
    ensures IsPrev(InOrder(head.tree), elm, prev)
    ensures InOrder(head.tree) == before + [elm] + after
    ensures prev == Last(before)
  {
    ghost var k, t := Focus(Top, head.tree, elm);
    NodesExist(head.tree);
    Look(head, k, t);
    RemovedOrder(k, t);
    before, after := Before(k) + InOrder(t.l), InOrder(t.r) + After(k);
    Neighbours(before, elm, after);
    if elm.left != null {
      prev := RightEnd(elm.left, head, L(k, t.n, t.c, t.r), t.l);
    } else {
      prev := LastBefore(elm, head, k, t);
    }
  }

  method RightEnd(from: Node, ghost head: Head, ghost k0: Ctx, ghost t0: Tree) returns (elm: Node)
    requires Shows(head, Plug(k0, t0)) && t0.T? && t0.n == from
    ensures elm == Last(Before(k0) + InOrder(t0)) && InOrder(t0) != []
  {
    elm := from;
    ghost var k, t := k0, t0;
    NodesExist(Plug(k, t));
    Look(head, k, t);
    while elm.right != null
      invariant Plug(k, t) == Plug(k0, t0) && t.T? && t.n == elm && elm.right == Root(t.r)
      invariant Last(InOrder(t)) == Last(InOrder(t0)) && InOrder(t) != [] && InOrder(t0) != []
      decreases t
    {
      elm := elm.right;
      k, t := R(t.l, t.n, t.c, k), t.r;
      Look(head, k, t);
    }
  }

  method LastBefore(from: Node, ghost head: Head, ghost k0: Ctx, ghost t0: Tree) returns (prev: Node?)
    requires Shows(head, Plug(k0, t0)) && t0.T? && t0.n == from
    ensures prev == Last(Before(k0))
  {
    var elm := from;
    ghost var k, t := k0, t0;
    NodesExist(Plug(k, t));
    Look(head, k, t);
    if elm.parent != null && elm == elm.parent.right {
      return elm.parent;
    }
    while elm.parent != null && elm == elm.parent.left
      invariant Plug(k, t) == Plug(k0, t0) && t.T? && t.n == elm && Before(k) == Before(k0)
      invariant elm.parent == CParent(k)
      invariant !k.Top? ==> k.n.left == Frame(k, elm).left && k.n.right == Frame(k, elm).right
      invariant k.R? ==> Root(k.l) != elm
      decreases Depth(k)
    {
      elm := elm.parent;
      k, t := k.up, Hang(k, t);
      Look(head, k, t);
    }
    prev := elm.parent;
  }

  /** In an ordered sequence a node stands in one place only. */
  lemma OnePlace(s: seq<Node>, before: seq<Node>, after: seq<Node>)
    requires Sorted(s) && s != [] && s == before + [s[0]] + after
    ensures before == [] && after == s[1..]
  {
    forall j | 0 < j < |s| ensures s[j] != s[0] {
      StrcmpOrder(s[0].pathname, s[j].pathname);
    }
    assert s[|before|] == s[0];
  }

  lemma FewerNodes(a: Tree, b: Tree)
    requires InOrder(a) != [] && InOrder(b) == InOrder(a)[1..]
    ensures Nodes(b) <= Nodes(a)
  {
    forall n | n in Nodes(b) ensures n in Nodes(a) {
      var i := NodeIndex(b, n);
      IndexNode(a, i + 1);
    }
  }

  /** One round of the loop: the next node is saved, the first one removed. */
  method RemoveFirst(head: Head, x: Node) returns (y: Node?)
    requires head.Valid() && x == First(InOrder(head.tree))
    modifies head, Nodes(head.tree)`left, Nodes(head.tree)`right
    modifies Nodes(head.tree)`parent, Nodes(head.tree)`color
    ensures head.Valid() && InOrder(head.tree) == InOrder(old(head.tree))[1..]
    ensures y == First(InOrder(head.tree))
    ensures Nodes(head.tree) <= Nodes(old(head.tree))
  {
    ghost var was := head.tree;
    ghost var before, after, node;
    NodesExist(was);
    IndexNode(was, 0);
    y, before, after := Next(x, head);
    OnePlace(InOrder(was), before, after);
    node, before, after := Remove(head, x);
    OnePlace(InOrder(was), before, after);
    FewerNodes(was, head.tree);
  }

  /** RB_FOREACH_SAFE around RB_REMOVE: every node is visited once, in order, and none is left. */
  method RemoveEach(head: Head) returns (visited: seq<Node>)
    requires head.Valid()
    modifies head, Nodes(head.tree)`left, Nodes(head.tree)`right
    modifies Nodes(head.tree)`parent, Nodes(head.tree)`color
    ensures head.Valid() && head.tree == E && head.root == null
    ensures visited == InOrder(old(head.tree))
  {
    visited := [];
    NodesExist(head.tree);
    ghost var all := InOrder(head.tree);
    var x := MinMax(head, -1);
    while x != null
      invariant head.Valid() && x == First(InOrder(head.tree))
      invariant |visited| <= |all| && visited == all[..|visited|]
      invariant InOrder(head.tree) == all[|visited|..]
      invariant Nodes(head.tree) <= Nodes(old(head.tree))
      decreases |all| - |visited|
    {
      var node: Node := x;
      x := RemoveFirst(head, node);
      visited := visited + [node];
    }
  }
}
