/** The top-down splay of `tree.h`, and the set operations built on it. */
module Splay {
  import opened SplayImage
  import opened SplayCost

  class Head {
    var root: Node?
    ghost var tree: Tree

    ghost predicate Valid()
      reads this, Nodes(tree)
    {
      Shows(this, tree) && Sorted(InOrder(tree))
    }

    constructor ()
      ensures Valid() && tree == E
    {
      root, tree := null, E;
    }
  }

  ghost predicate Shows(head: Head, t: Tree)
    reads head, Nodes(t)
  {
    Whole(Snap(Nodes(t)), head.root, t)
  }

  ghost predicate Whole(m: Mem, root: Node?, t: Tree) {
    root == Root(t) && Distinct(t) && Linked(m, t)
  }

  ghost function All(header: Node, ls: Chain, t: Tree, rs: Chain): set<Node> {
    {header} + CNodes(ls) + Nodes(t) + CNodes(rs)
  }

  ghost predicate Apart(header: Node, ls: Chain, t: Tree, rs: Chain) {
    && CDistinct(ls) && Distinct(t) && CDistinct(rs)
    && header !in CNodes(ls) && header !in Nodes(t) && header !in CNodes(rs)
    && CNodes(ls) !! Nodes(t) && CNodes(ls) !! CNodes(rs) && Nodes(t) !! CNodes(rs)
  }

  ghost predicate Parts(m: Mem, header: Node, ls: Chain, t: Tree, rs: Chain) {
    && Apart(header, ls, t, rs)
    && LeftChain(m, header, ls) && Linked(m, t) && RightChain(m, header, rs)
  }

  /** In the middle of a splay: the rest of the tree at the head, the two sides at the header. */
  ghost predicate Splitting(head: Head, header: Node, ls: Chain, t: Tree, rs: Chain)
    reads head, All(header, ls, t, rs)
  {
    head.root == Root(t) && Parts(Snap(All(header, ls, t, rs)), header, ls, t, rs)
  }

  ghost function RotatedRight(t: Tree): Tree
    requires t.T? && t.l.T?
  {
    T(t.l.l, t.l.n, T(t.l.r, t.n, t.r))
  }

  ghost function RotatedLeft(t: Tree): Tree
    requires t.T? && t.r.T?
  {
    T(T(t.l, t.n, t.r.l), t.r.n, t.r.r)
  }

  /** What a right rotation writes. */
  ghost predicate RightMem(m: Mem, m': Mem, root: Node, tmp: Node) {
    && root in m && root in m' && tmp in m && tmp in m'
    && m'[root] == m[root].(left := m[tmp].right) && m'[tmp] == m[tmp].(right := root)
    && Untouched(m, m', {root, tmp})
  }

  /** The rotated subtree, in the memory the rotation leaves. */
  lemma RotateRightTree(m: Mem, m': Mem, t: Tree)
    requires Linked(m, t) && Distinct(t) && t.T? && t.l.T? && RightMem(m, m', t.n, t.l.n)
    ensures Linked(m', RotatedRight(t)) && Distinct(RotatedRight(t))
    ensures Nodes(RotatedRight(t)) == Nodes(t) && Size(RotatedRight(t)) == Size(t)
    ensures Untouched(m, m', Nodes(t))
  {
    assert Linked(m, t.l) && Distinct(t.l) && Nodes(t.l) == Nodes(t.l.l) + {t.l.n} + Nodes(t.l.r);
    LinkedFrame(m, m', t.l.l);
    LinkedFrame(m, m', t.l.r);
    LinkedFrame(m, m', t.r);
  }

  /** What a left rotation writes. */
  ghost predicate LeftMem(m: Mem, m': Mem, root: Node, tmp: Node) {
    && root in m && root in m' && tmp in m && tmp in m'
    && m'[root] == m[root].(right := m[tmp].left) && m'[tmp] == m[tmp].(left := root)
    && Untouched(m, m', {root, tmp})
  }

  /** The rotated subtree, in the memory the rotation leaves. */
  lemma RotateLeftTree(m: Mem, m': Mem, t: Tree)
    requires Linked(m, t) && Distinct(t) && t.T? && t.r.T? && LeftMem(m, m', t.n, t.r.n)
    ensures Linked(m', RotatedLeft(t)) && Distinct(RotatedLeft(t))
    ensures Nodes(RotatedLeft(t)) == Nodes(t) && Size(RotatedLeft(t)) == Size(t)
    ensures Untouched(m, m', Nodes(t))
  {
    assert Linked(m, t.r) && Distinct(t.r) && Nodes(t.r) == Nodes(t.r.l) + {t.r.n} + Nodes(t.r.r);
    LinkedFrame(m, m', t.r.l);
    LinkedFrame(m, m', t.r.r);
    LinkedFrame(m, m', t.l);
  }

  /** Writing inside the middle tree leaves the sides as they are. */
  lemma SidesKept(m: Mem, m': Mem, header: Node, ls: Chain, t: Tree, t': Tree, rs: Chain)
    requires Parts(m, header, ls, t, rs) && Linked(m', t') && Distinct(t') && Nodes(t') == Nodes(t)
    requires Untouched(m, m', Nodes(t))
    ensures Parts(m', header, ls, t', rs) && All(header, ls, t', rs) == All(header, ls, t, rs)
  {
    LeftFrame(m, m', header, ls);
    RightFrame(m, m', header, rs);
  }

  /** SPLAY_ROTATE_RIGHT, on the links. */
  method RotateRightLinks(head: Head, tmp: Node, ghost all: set<Node>)
    requires head.root != null && head.root in all && tmp in all && tmp != head.root
    modifies head`root, head.root`left, tmp`right
    ensures RightMem(old(Snap(all)), Snap(all), old(head.root), tmp) && head.root == tmp
  {
    head.root.left := tmp.right;
    tmp.right := head.root;
    head.root := tmp;
  }

  method RotateRight(head: Head, tmp: Node, ghost header: Node, ghost ls: Chain, ghost t: Tree, ghost rs: Chain)
    requires Splitting(head, header, ls, t, rs) && t.T? && t.l.T? && t.l.n == tmp
    modifies head`root, Nodes(t)`left, Nodes(t)`right
    ensures Splitting(head, header, ls, RotatedRight(t), rs)
    ensures Nodes(RotatedRight(t)) == Nodes(t) && Size(RotatedRight(t)) == Size(t)
  {
    ghost var all := All(header, ls, t, rs);
    ghost var m := Snap(all);
    assert Linked(m, t.l) && tmp in Nodes(t.l);
    RotateRightLinks(head, tmp, all);
    ghost var m' := Snap(all);
    RotateRightTree(m, m', t);
    SidesKept(m, m', header, ls, t, RotatedRight(t), rs);
  }

  /** SPLAY_ROTATE_LEFT, on the links. */
  method RotateLeftLinks(head: Head, tmp: Node, ghost all: set<Node>)
    requires head.root != null && head.root in all && tmp in all && tmp != head.root
    modifies head`root, head.root`right, tmp`left
    ensures LeftMem(old(Snap(all)), Snap(all), old(head.root), tmp) && head.root == tmp
  {
    head.root.right := tmp.left;
    tmp.left := head.root;
    head.root := tmp;
  }

  method RotateLeft(head: Head, tmp: Node, ghost header: Node, ghost ls: Chain, ghost t: Tree, ghost rs: Chain)
    requires Splitting(head, header, ls, t, rs) && t.T? && t.r.T? && t.r.n == tmp
    modifies head`root, Nodes(t)`left, Nodes(t)`right
    ensures Splitting(head, header, ls, RotatedLeft(t), rs)
    ensures Nodes(RotatedLeft(t)) == Nodes(t) && Size(RotatedLeft(t)) == Size(t)
  {
    ghost var all := All(header, ls, t, rs);
    ghost var m := Snap(all);
    assert Linked(m, t.r) && tmp in Nodes(t.r);
    RotateLeftLinks(head, tmp, all);
    ghost var m' := Snap(all);
    RotateLeftTree(m, m', t);
    SidesKept(m, m', header, ls, t, RotatedLeft(t), rs);
  }

  /** What SPLAY_LINKLEFT writes. */
  ghost predicate LeftSet(m: Mem, m': Mem, n: Node, left: Node?) {
    n in m && n in m' && m'[n] == m[n].(left := left) && Untouched(m, m', {n})
  }

  lemma LinkLeftMem(m: Mem, m': Mem, header: Node, ls: Chain, t: Tree, rs: Chain)
    requires Parts(m, header, ls, t, rs) && t.T? && header in m && LeftSet(m, m', Tail(header, rs), t.n)
    ensures Parts(m', header, ls, t.l, Link(rs, t.n, t.r))
  {
    assert ls.Link? ==> ls.n in CNodes(ls);
    assert rs.Link? ==> rs.n in CNodes(rs);
    LinkedFrame(m, m', t.l);
    LinkedFrame(m, m', t.r);
    LeftFrame(m, m', header, ls);
    RightFrame(m, m', header, rs);
  }

  lemma LinkLeftAll(header: Node, ls: Chain, t: Tree, rs: Chain)
    requires t.T?
    ensures All(header, ls, t.l, Link(rs, t.n, t.r)) == All(header, ls, t, rs)
  {
  }

  method LinkLeftLinks(head: Head, right: Node, ghost all: set<Node>) returns (right': Node)
    requires head.root != null && head.root in all && right in all && right != head.root
    modifies head`root, right`left
    ensures LeftSet(old(Snap(all)), Snap(all), right, old(head.root))
    ensures right' == old(head.root) && head.root == old(head.root.left)
  {
    right.left := head.root;
    right' := head.root;
    head.root := head.root.left;
  }

  /** SPLAY_LINKLEFT: the root goes to the right side, the search goes on in its left subtree. */
  method LinkLeft(head: Head, right: Node, ghost header: Node, ghost ls: Chain, ghost t: Tree, ghost rs: Chain)
    returns (right': Node)
    requires Splitting(head, header, ls, t, rs) && t.T? && right == Tail(header, rs)
    modifies head`root, right`left
    ensures Splitting(head, header, ls, t.l, Link(rs, t.n, t.r)) && right' == t.n
    ensures All(header, ls, t.l, Link(rs, t.n, t.r)) == All(header, ls, t, rs)
  {
    ghost var all := All(header, ls, t, rs);
    ghost var m := Snap(all);
    assert m[t.n] == Links(Root(t.l), Root(t.r));
    right' := LinkLeftLinks(head, right, all);
    LinkLeftMem(m, Snap(all), header, ls, t, rs);
    LinkLeftAll(header, ls, t, rs);
  }

  /** What SPLAY_LINKRIGHT writes. */
  ghost predicate RightSet(m: Mem, m': Mem, n: Node, right: Node?) {
    n in m && n in m' && m'[n] == m[n].(right := right) && Untouched(m, m', {n})
  }

  lemma LinkRightMem(m: Mem, m': Mem, header: Node, ls: Chain, t: Tree, rs: Chain)
    requires Parts(m, header, ls, t, rs) && t.T? && header in m && RightSet(m, m', Tail(header, ls), t.n)
    ensures Parts(m', header, Link(ls, t.n, t.l), t.r, rs)
  {
    assert ls.Link? ==> ls.n in CNodes(ls);
    assert rs.Link? ==> rs.n in CNodes(rs);
    LinkedFrame(m, m', t.l);
    LinkedFrame(m, m', t.r);
    LeftFrame(m, m', header, ls);
    RightFrame(m, m', header, rs);
  }

  lemma LinkRightAll(header: Node, ls: Chain, t: Tree, rs: Chain)
    requires t.T?
    ensures All(header, Link(ls, t.n, t.l), t.r, rs) == All(header, ls, t, rs)
  {
  }

  method LinkRightLinks(head: Head, left: Node, ghost all: set<Node>) returns (left': Node)
    requires head.root != null && head.root in all && left in all && left != head.root
    modifies head`root, left`right
    ensures RightSet(old(Snap(all)), Snap(all), left, old(head.root))
    ensures left' == old(head.root) && head.root == old(head.root.right)
  {
    left.right := head.root;
    left' := head.root;
    head.root := head.root.right;
  }

  /** SPLAY_LINKRIGHT: the root goes to the left side, the search goes on in its right subtree. */
  method LinkRight(head: Head, left: Node, ghost header: Node, ghost ls: Chain, ghost t: Tree, ghost rs: Chain)
    returns (left': Node)
    requires Splitting(head, header, ls, t, rs) && t.T? && left == Tail(header, ls)
    modifies head`root, left`right
    ensures Splitting(head, header, Link(ls, t.n, t.l), t.r, rs) && left' == t.n
    ensures All(header, Link(ls, t.n, t.l), t.r, rs) == All(header, ls, t, rs)
  {
    ghost var all := All(header, ls, t, rs);
    ghost var m := Snap(all);
    assert m[t.n] == Links(Root(t.l), Root(t.r));
    left' := LinkRightLinks(head, left, all);
    LinkRightMem(m, Snap(all), header, ls, t, rs);
    LinkRightAll(header, ls, t, rs);
  }

  // ---------- joining the three parts ----------

  /** After the two open links are filled, both sides are trees below the header. */
  lemma SidesClosed(m: Mem, m1: Mem, header: Node, ls: Chain, t: Tree, rs: Chain)
    requires Parts(m, header, ls, t, rs) && t.T? && header in m
    requires var x, y := Tail(header, ls), Tail(header, rs);
             && x in m && y in m
             && var m0 := m[x := Links(m[x].left, Root(t.l))]; m1 == m0[y := Links(Root(t.r), m0[y].right)]
    ensures Linked(m1, LeftClose(ls, t.l)) && Distinct(LeftClose(ls, t.l))
    ensures Linked(m1, RightClose(rs, t.r)) && Distinct(RightClose(rs, t.r))
    ensures m1[header] == Links(Root(RightClose(rs, t.r)), Root(LeftClose(ls, t.l)))
    ensures Nodes(LeftClose(ls, t.l)) == CNodes(ls) + Nodes(t.l)
    ensures Nodes(RightClose(rs, t.r)) == CNodes(rs) + Nodes(t.r)
  {
    LinkedFrame(m, m1, t.l);
    LinkedFrame(m, m1, t.r);
    LeftFrame(m, m1, header, ls);
    RightFrame(m, m1, header, rs);
    LeftClosed(m1, header, ls, t.l);
    RightClosed(m1, header, rs, t.r);
  }

  ghost function Joined(ls: Chain, t: Tree, rs: Chain): Tree
    requires t.T?
  {
    T(LeftClose(ls, t.l), t.n, RightClose(rs, t.r))
  }

  /** The memory after the first two assignments of SPLAY_ASSEMBLE. */
  ghost function Filled(m: Mem, root: Node, left: Node, right: Node): Mem
    requires root in m && left in m && right in m
  {
    var m0 := m[left := Links(m[left].left, m[root].left)];
    m0[right := Links(m[root].right, m0[right].right)]
  }

  /** The memory after all four. */
  ghost function Assembled(m: Mem, root: Node, node: Node, left: Node, right: Node): Mem
    requires root in m && node in m && left in m && right in m
  {
    var m1 := Filled(m, root, left, right);
    m1[root := Links(m1[node].right, m1[node].left)]
  }

  lemma JoinedMem(m: Mem, header: Node, ls: Chain, t: Tree, rs: Chain)
    requires Parts(m, header, ls, t, rs) && t.T? && Tail(header, ls) in m && Tail(header, rs) in m && header in m
    ensures var m' := Assembled(m, t.n, header, Tail(header, ls), Tail(header, rs)) - {header};
            Linked(m', Joined(ls, t, rs)) && Distinct(Joined(ls, t, rs))
    ensures Nodes(Joined(ls, t, rs)) == All(header, ls, t, rs) - {header}
  {
    var m1 := Filled(m, t.n, Tail(header, ls), Tail(header, rs));
    SidesClosed(m, m1, header, ls, t, rs);
    var m' := m1[t.n := Links(m1[header].right, m1[header].left)] - {header};
    JoinedTree(m1, m', header, LeftClose(ls, t.l), t.n, RightClose(rs, t.r));
  }

  /** A root over two trees. */
  lemma JoinedTree(m: Mem, m': Mem, header: Node, l: Tree, n: Node, r: Tree)
    requires Linked(m, l) && Linked(m, r) && Distinct(l) && Distinct(r) && Nodes(l) !! Nodes(r)
    requires n !in Nodes(l) + Nodes(r) && header !in Nodes(l) + Nodes(r)
    requires n in m' && m'[n] == Links(Root(l), Root(r)) && Untouched(m, m', {n, header})
    ensures Linked(m', T(l, n, r)) && Distinct(T(l, n, r))
  {
    LinkedFrame(m, m', l);
    LinkedFrame(m, m', r);
  }

  /** SPLAY_ASSEMBLE, on the links. */
  method AssembleLinks(root: Node, node: Node, left: Node, right: Node, ghost all: set<Node>, ghost m: Mem)
    requires root !in {node, left, right} && {root, node, left, right} <= all && m == Snap(all)
    modifies root`left, root`right, left`right, right`left
    ensures Snap(all) == Assembled(m, root, node, left, right)
  {
    left.right := root.left;
    right.left := root.right;
    root.left := node.right;
    root.right := node.left;
  }

  method Assemble(head: Head, node: Node, left: Node, right: Node, ghost ls: Chain, ghost t: Tree, ghost rs: Chain)
    requires Splitting(head, node, ls, t, rs) && t.T?
    requires left == Tail(node, ls) && right == Tail(node, rs)
    modifies All(node, ls, t, rs)`left, All(node, ls, t, rs)`right
    ensures Shows(head, Joined(ls, t, rs)) && Nodes(Joined(ls, t, rs)) == All(node, ls, t, rs) - {node}
  {
    ghost var all := All(node, ls, t, rs);
    ghost var m := Snap(all);
    assert left in all && right in all;
    AssembleLinks(head.root, node, left, right, all, m);
    JoinedMem(m, node, ls, t, rs);
    assert Snap(Nodes(Joined(ls, t, rs))) == Snap(all) - {node};
  }

  // ---------- order and keys ----------

  ghost function Order(ls: Chain, t: Tree, rs: Chain): seq<Node> {
    LeftOrder(ls) + InOrder(t) + RightOrder(rs)
  }

  ghost predicate Below(s: seq<Node>, key: int) {
    forall i :: 0 <= i < |s| ==> s[i].key < key
  }

  ghost predicate Above(s: seq<Node>, key: int) {
    forall i :: 0 <= i < |s| ==> key < s[i].key
  }

  lemma JoinedOrder(ls: Chain, t: Tree, rs: Chain)
    requires t.T?
    ensures InOrder(Joined(ls, t, rs)) == Order(ls, t, rs)
  {
    LeftCloseOrder(ls, t.l);
    RightCloseOrder(rs, t.r);
    RegroupJoin(LeftOrder(ls), InOrder(t.l), [t.n], InOrder(t.r), RightOrder(rs));
  }

  lemma RegroupJoin(a: seq<Node>, l: seq<Node>, m: seq<Node>, r: seq<Node>, b: seq<Node>)
    ensures (a + l) + m + (r + b) == a + (l + m + r) + b
    ensures a + l + (m + r + b) == a + (l + m + r) + b
    ensures (a + l + m) + r + b == a + (l + m + r) + b
  {
  }

  lemma RotationOrder(ls: Chain, t: Tree, rs: Chain)
    requires t.T?
    ensures t.l.T? ==> Order(ls, RotatedRight(t), rs) == Order(ls, t, rs)
    ensures t.r.T? ==> Order(ls, RotatedLeft(t), rs) == Order(ls, t, rs)
  {
    assert t.l.T? ==> InOrder(RotatedRight(t)) == InOrder(t);
    assert t.r.T? ==> InOrder(RotatedLeft(t)) == InOrder(t);
  }

  lemma SortedParts(a: seq<Node>, m: seq<Node>, b: seq<Node>, n: Node, l: seq<Node>, r: seq<Node>)
    requires Sorted(a + m + b) && m == l + [n] + r
    ensures Below(l, n.key) && Above(r, n.key)
  {
    var s := a + m + b;
    assert s[|a| + |l|] == n;
    assert forall i :: 0 <= i < |l| ==> s[|a| + i] == l[i];
    assert forall i :: 0 <= i < |r| ==> s[|a| + |l| + 1 + i] == r[i];
  }

  /** The root and its right subtree move to the right side: all of them lie above the key. */
  lemma LinkLeftOrder(ls: Chain, t: Tree, rs: Chain, key: int)
    requires t.T? && Sorted(Order(ls, t, rs)) && Above(RightOrder(rs), key) && key < t.n.key
    ensures Order(ls, t.l, Link(rs, t.n, t.r)) == Order(ls, t, rs)
    ensures Above(RightOrder(Link(rs, t.n, t.r)), key)
  {
    RegroupJoin(LeftOrder(ls), InOrder(t.l), [t.n], InOrder(t.r), RightOrder(rs));
    SortedParts(LeftOrder(ls), InOrder(t), RightOrder(rs), t.n, InOrder(t.l), InOrder(t.r));
  }

  lemma LinkRightOrder(ls: Chain, t: Tree, rs: Chain, key: int)
    requires t.T? && Sorted(Order(ls, t, rs)) && Below(LeftOrder(ls), key) && t.n.key < key
    ensures Order(Link(ls, t.n, t.l), t.r, rs) == Order(ls, t, rs)
    ensures Below(LeftOrder(Link(ls, t.n, t.l)), key)
  {
    RegroupJoin(LeftOrder(ls), InOrder(t.l), [t.n], InOrder(t.r), RightOrder(rs));
    SortedParts(LeftOrder(ls), InOrder(t), RightOrder(rs), t.n, InOrder(t.l), InOrder(t.r));
  }

  /** The root has the key, or stands next to where the key would be. */
  ghost predicate Nearest(t: Tree, key: int) {
    && t.T?
    && (key <= t.n.key ==> Below(InOrder(t.l), key))
    && (key >= t.n.key ==> Above(InOrder(t.r), key))
  }

  lemma JoinedNearest(ls: Chain, t: Tree, rs: Chain, key: int)
    requires t.T? && Sorted(Order(ls, t, rs)) && Below(LeftOrder(ls), key) && Above(RightOrder(rs), key)
    requires t.n.key == key || (key < t.n.key && t.l.E?) || (t.n.key < key && t.r.E?)
    ensures Nearest(Joined(ls, t, rs), key)
  {
    LeftCloseOrder(ls, t.l);
    RightCloseOrder(rs, t.r);
    SortedParts(LeftOrder(ls), InOrder(t), RightOrder(rs), t.n, InOrder(t.l), InOrder(t.r));
  }

  // ---------- the splay ----------

  /** One round of SPLAY when the key lies below the root's; the flag says whether the loop breaks. */
  method GoLeft(head: Head, key: int, node: Node, right: Node, ghost ls: Chain, ghost t: Tree, ghost rs: Chain)
    returns (right': Node, broke: bool, ghost t': Tree, ghost rs': Chain)
    requires Splitting(head, node, ls, t, rs) && t.T? && key < t.n.key && right == Tail(node, rs)
    requires Sorted(Order(ls, t, rs)) && Above(RightOrder(rs), key)
    modifies head`root, All(node, ls, t, rs)`left, All(node, ls, t, rs)`right
    ensures Splitting(head, node, ls, t', rs') && t'.T? && right' == Tail(node, rs')
    ensures All(node, ls, t', rs') == All(node, ls, t, rs)
    ensures Order(ls, t', rs') == Order(ls, t, rs) && Above(RightOrder(rs'), key)
    ensures broke ==> key < t'.n.key && t'.l.E? && Settled(ls, t', rs', key, Charge(ls, t, rs, key))
    ensures Within(t, t', key, 1)
    ensures !broke ==> Size(t') < Size(t) && 1 + Charge(ls, t', rs', key) <= Charge(ls, t, rs, key)
  {
    right', broke, t', rs' := right, true, t, rs;
    var tmp := head.root.left;
    if tmp == null {
      StaysSettled(ls, t, rs, key);
      return;
    }
    if key < tmp.key {
      TwiceLeft(t, key);
      RotationOrder(ls, t, rs);
      RotateRight(head, tmp, node, ls, t, rs);
      t' := RotatedRight(t);
      if head.root.left == null {
        RotatedRightSettled(ls, t, rs, key);
        return;
      }
      TwiceLeftCost(ls, t, rs, key);
    } else {
      OnceLeft(t, key);
      LinkLeftCost(ls, t, rs, key);
    }
    LinkLeftOrder(ls, t', rs, key);
    right' := LinkLeft(head, right, node, ls, t', rs);
    broke, t', rs' := false, t'.l, Link(rs, t'.n, t'.r);
  }

  method GoRight(head: Head, key: int, node: Node, left: Node, ghost ls: Chain, ghost t: Tree, ghost rs: Chain)
    returns (left': Node, broke: bool, ghost t': Tree, ghost ls': Chain)
    requires Splitting(head, node, ls, t, rs) && t.T? && t.n.key < key && left == Tail(node, ls)
    requires Sorted(Order(ls, t, rs)) && Below(LeftOrder(ls), key)
    modifies head`root, All(node, ls, t, rs)`left, All(node, ls, t, rs)`right
    ensures Splitting(head, node, ls', t', rs) && t'.T? && left' == Tail(node, ls')
    ensures All(node, ls', t', rs) == All(node, ls, t, rs)
    ensures Order(ls', t', rs) == Order(ls, t, rs) && Below(LeftOrder(ls'), key)
    ensures broke ==> t'.n.key < key && t'.r.E? && Settled(ls', t', rs, key, Charge(ls, t, rs, key))
    ensures Within(t, t', key, 1)
    ensures !broke ==> Size(t') < Size(t) && 1 + Charge(ls', t', rs, key) <= Charge(ls, t, rs, key)
  {
    left', broke, t', ls' := left, true, t, ls;
    var tmp := head.root.right;
    if tmp == null {
      StaysSettled(ls, t, rs, key);
      return;
    }
    if tmp.key < key {
      TwiceRight(t, key);
      RotationOrder(ls, t, rs);
      RotateLeft(head, tmp, node, ls, t, rs);
      t' := RotatedLeft(t);
      if head.root.right == null {
        RotatedLeftSettled(ls, t, rs, key);
        return;
      }
      TwiceRightCost(ls, t, rs, key);
    } else {
      OnceRight(t, key);
      LinkRightCost(ls, t, rs, key);
    }
    LinkRightOrder(ls, t', rs, key);
    left' := LinkRight(head, left, node, ls, t', rs);
    broke, t', ls' := false, t'.r, Link(ls, t'.n, t'.l);
  }

  /** SPLAY: the same nodes in the same order, with the key or a neighbour of its place at the root. */
  method SplayTo(head: Head, key: int, ghost t0: Tree) returns (ghost t1: Tree, ghost rounds: nat)
    requires Shows(head, t0) && t0.T? && Sorted(InOrder(t0))
    modifies head`root, Nodes(t0)`left, Nodes(t0)`right
    ensures Shows(head, t1) && Nodes(t1) == Nodes(t0) && InOrder(t1) == InOrder(t0)
    ensures Nearest(t1, key)
    ensures Amortised(t0, t1, rounds, 6 * Lg(Size(t0)) + 2) && Visited(t0, key) <= 2 * rounds + 1
  {
    rounds := 0;
    ghost var budget := 2 * Pot(t0) + 4 * Lg(Size(t0));
    NodesExist(t0);
    var node := new Node(0);
    var left, right := node, node;
    ghost var ls, t, rs := Nil, t0, Nil;
    StartSplit(head, node, t0);
    while key != head.root.key
      invariant Splitting(head, node, ls, t, rs) && t.T?
      invariant All(node, ls, t, rs) == Nodes(t0) + {node} && node !in Nodes(t0)
      invariant left == Tail(node, ls) && right == Tail(node, rs)
      invariant Order(ls, t, rs) == InOrder(t0)
      invariant Below(LeftOrder(ls), key) && Above(RightOrder(rs), key)
      invariant rounds + Charge(ls, t, rs, key) <= budget && Within(t0, t, key, rounds)
      decreases Size(t)
    {
      ghost var u := t;
      var broke;
      if key < head.root.key {
        right, broke, t, rs := GoLeft(head, key, node, right, ls, t, rs);
      } else {
        left, broke, t, ls := GoRight(head, key, node, left, ls, t, rs);
      }
      OneMoreRound(t0, u, t, key, rounds);
      rounds := rounds + 1;
      if broke {
        break;
      }
    }
    assert Settled(ls, t, rs, key, budget + 1 - rounds);
    JoinedOrder(ls, t, rs);
    SizeIsLength(t0);
    SizeIsLength(Joined(ls, t, rs));
    HalfTheWay(t0, t, key, rounds);
    SplayBound(ls, t, rs, key, Pot(t0), Size(t0), rounds);
    JoinedNearest(ls, t, rs, key);
    Assemble(head, node, left, right, ls, t, rs);
    t1 := Joined(ls, t, rs);
  }

  lemma {:induction false} NodesExist(t: Tree)
    ensures forall n :: n in Nodes(t) ==> allocated(n)
  {
    if t.E? {
    } else {
      NodesExist(t.l);
      NodesExist(t.r);
    }
  }

  lemma StartSplit(head: Head, node: Node, t: Tree)
    requires Shows(head, t) && node !in Nodes(t)
    ensures Splitting(head, node, Nil, t, Nil) && All(node, Nil, t, Nil) == Nodes(t) + {node}
    ensures Order(Nil, t, Nil) == InOrder(t)
  {
    LinkedFrame(Snap(Nodes(t)), Snap(All(node, Nil, t, Nil)), t);
    assert [] + InOrder(t) + [] == InOrder(t);
  }

  // ---------- SPLAY_MINMAX ----------

  lemma LinkOrder(ls: Chain, t: Tree, rs: Chain)
    requires t.T?
    ensures Order(ls, t.l, Link(rs, t.n, t.r)) == Order(ls, t, rs)
    ensures Order(Link(ls, t.n, t.l), t.r, rs) == Order(ls, t, rs)
  {
    RegroupJoin(LeftOrder(ls), InOrder(t.l), [t.n], InOrder(t.r), RightOrder(rs));
  }

  /** Some key is below all of the tree, and some above. */
  lemma {:induction false} Outside(t: Tree) returns (low: int, high: int)
    ensures forall n :: n in Nodes(t) ==> low < n.key < high
  {
    if t.E? {
      low, high := 0, 0;
    } else {
      var a, b := Outside(t.l);
      var c, d := Outside(t.r);
      low := if a < c then a else c;
      low := if low < t.n.key then low else t.n.key - 1;
      high := if b > d then b else d;
      high := if high > t.n.key then high else t.n.key + 1;
    }
  }

  /** One round of SPLAY_MINMAX to the left; `key` lies beyond all keys there. */
  method AllLeft(head: Head, ghost key: int, node: Node, right: Node, ghost ls: Chain, ghost t: Tree, ghost rs: Chain)
    returns (right': Node, broke: bool, ghost t': Tree, ghost rs': Chain)
    requires Splitting(head, node, ls, t, rs) && t.T? && right == Tail(node, rs)
    requires forall n :: n in Nodes(t) ==> key < n.key
    modifies head`root, All(node, ls, t, rs)`left, All(node, ls, t, rs)`right
    ensures Splitting(head, node, ls, t', rs') && t'.T? && right' == Tail(node, rs')
    ensures All(node, ls, t', rs') == All(node, ls, t, rs) && Nodes(t') <= Nodes(t)
    ensures Order(ls, t', rs') == Order(ls, t, rs)
    ensures broke ==> key < t'.n.key && t'.l.E? && Settled(ls, t', rs', key, Charge(ls, t, rs, key))
    ensures Within(t, t', key, 1)
    ensures !broke ==> Size(t') < Size(t) && 1 + Charge(ls, t', rs', key) <= Charge(ls, t, rs, key)
  {
    right', broke, t', rs' := right, true, t, rs;
    var tmp := head.root.left;
    if tmp == null {
      StaysSettled(ls, t, rs, key);
      return;
    }
    TwiceLeft(t, key);
    RotationOrder(ls, t, rs);
    RotateRight(head, tmp, node, ls, t, rs);
    t' := RotatedRight(t);
    if head.root.left == null {
      RotatedRightSettled(ls, t, rs, key);
      return;
    }
    TwiceLeftCost(ls, t, rs, key);
    LinkOrder(ls, t', rs);
    right' := LinkLeft(head, right, node, ls, t', rs);
    broke := false;
    t', rs' := t'.l, Link(rs, t'.n, t'.r);
  }

  /** One round of SPLAY_MINMAX to the right; `key` lies beyond all keys there. */
  method AllRight(head: Head, ghost key: int, node: Node, left: Node, ghost ls: Chain, ghost t: Tree, ghost rs: Chain)
    returns (left': Node, broke: bool, ghost t': Tree, ghost ls': Chain)
    requires Splitting(head, node, ls, t, rs) && t.T? && left == Tail(node, ls)
    requires forall n :: n in Nodes(t) ==> n.key < key
    modifies head`root, All(node, ls, t, rs)`left, All(node, ls, t, rs)`right
    ensures Splitting(head, node, ls', t', rs) && t'.T? && left' == Tail(node, ls')
    ensures All(node, ls', t', rs) == All(node, ls, t, rs) && Nodes(t') <= Nodes(t)
    ensures Order(ls', t', rs) == Order(ls, t, rs)
    ensures broke ==> t'.n.key < key && t'.r.E? && Settled(ls', t', rs, key, Charge(ls, t, rs, key))
    ensures Within(t, t', key, 1)
    ensures !broke ==> Size(t') < Size(t) && 1 + Charge(ls', t', rs, key) <= Charge(ls, t, rs, key)
  {
    left', broke, t', ls' := left, true, t, ls;
    var tmp := head.root.right;
    if tmp == null {
      StaysSettled(ls, t, rs, key);
      return;
    }
    TwiceRight(t, key);
    RotationOrder(ls, t, rs);
    RotateLeft(head, tmp, node, ls, t, rs);
    t' := RotatedLeft(t);
    if head.root.right == null {
      RotatedLeftSettled(ls, t, rs, key);
      return;
    }
    TwiceRightCost(ls, t, rs, key);
    LinkOrder(ls, t', rs);
    left' := LinkRight(head, left, node, ls, t', rs);
    broke := false;
    t', ls' := t'.r, Link(ls, t'.n, t'.l);
  }

  /** SPLAY_MINMAX: the first node (negative `comp`) or the last comes to the root. */
  method MinMax(head: Head, comp: int, ghost t0: Tree) returns (ghost t1: Tree, ghost rounds: nat)
    requires Shows(head, t0) && t0.T? && comp != 0
    modifies head`root, Nodes(t0)`left, Nodes(t0)`right
    ensures Shows(head, t1) && Nodes(t1) == Nodes(t0) && InOrder(t1) == InOrder(t0)
    ensures t1.T? && (if comp < 0 then t1.l.E? else t1.r.E?)
    ensures Amortised(t0, t1, rounds, 6 * Lg(Size(t0)) + 2)
  {
    rounds := 0;
    ghost var budget := 2 * Pot(t0) + 4 * Lg(Size(t0));
    ghost var low, high := Outside(t0);
    ghost var key := if comp < 0 then low else high;
    NodesExist(t0);
    var node := new Node(0);
    var left, right := node, node;
    ghost var ls, t, rs := Nil, t0, Nil;
    StartSplit(head, node, t0);
    while true
      invariant Splitting(head, node, ls, t, rs) && t.T?
      invariant All(node, ls, t, rs) == Nodes(t0) + {node} && node !in Nodes(t0)
      invariant left == Tail(node, ls) && right == Tail(node, rs)
      invariant Order(ls, t, rs) == InOrder(t0)
      invariant if comp < 0 then ls == Nil else rs == Nil
      invariant rounds + Charge(ls, t, rs, key) <= budget && Within(t0, t, key, rounds)
      decreases Size(t)
    {
      ghost var u := t;
      var broke;
      if comp < 0 {
        right, broke, t, rs := AllLeft(head, key, node, right, ls, t, rs);
      } else {
        left, broke, t, ls := AllRight(head, key, node, left, ls, t, rs);
      }
      OneMoreRound(t0, u, t, key, rounds);
      rounds := rounds + 1;
      if broke {
        break;
      }
    }
    JoinedOrder(ls, t, rs);
    SizeIsLength(t0);
    SizeIsLength(Joined(ls, t, rs));
    HalfTheWay(t0, t, key, rounds);
    SplayBound(ls, t, rs, key, Pot(t0), Size(t0), rounds);
    Assemble(head, node, left, right, ls, t, rs);
    t1 := Joined(ls, t, rs);
  }

  // ---------- the set operations ----------

  ghost predicate HasKey(t: Tree, key: int) {
    exists i :: 0 <= i < |InOrder(t)| && InOrder(t)[i].key == key
  }

  lemma MiddleDecides(l: seq<Node>, n: Node, r: seq<Node>, key: int)
    requires Sorted(l + [n] + r)
    requires (key <= n.key ==> Below(l, key)) && (key >= n.key ==> Above(r, key))
    ensures (exists i :: 0 <= i < |l + [n] + r| && (l + [n] + r)[i].key == key) <==> n.key == key
    ensures Below(l, n.key) && Above(r, n.key)
  {
    var s, i := l + [n] + r, |l|;
    assert s[i] == n;
    assert forall j :: 0 <= j < i ==> s[j] == l[j];
    assert forall j :: 0 <= j < |r| ==> s[i + 1 + j] == r[j];
    assert forall j :: i < j < |s| ==> s[j] == r[j - i - 1];
  }

  /** After a splay, the root tells whether the key is there. */
  lemma NearestDecides(t: Tree, key: int)
    requires Nearest(t, key) && Sorted(InOrder(t))
    ensures HasKey(t, key) <==> t.n.key == key
    ensures Below(InOrder(t.l), t.n.key) && Above(InOrder(t.r), t.n.key)
  {
    MiddleDecides(InOrder(t.l), t.n, InOrder(t.r), key);
  }

  /** SPLAY_FIND */
  method Find(head: Head, key: int) returns (found: Node?, ghost rounds: nat)
    requires head.Valid()
    modifies head, Nodes(head.tree)`left, Nodes(head.tree)`right
    ensures head.Valid() && InOrder(head.tree) == InOrder(old(head.tree)) && Nodes(head.tree) == Nodes(old(head.tree))
    ensures found != null <==> HasKey(old(head.tree), key)
    ensures found != null ==> found == head.root && found.key == key
    ensures Amortised(old(head.tree), head.tree, rounds, 6 * Lg(Size(old(head.tree))) + 2)
    ensures Visited(old(head.tree), key) <= 2 * rounds + 1
  {
    rounds := 0;
    if head.root == null {
      return null, rounds;
    }
    ghost var t;
    t, rounds := SplayTo(head, key, head.tree);
    NearestDecides(t, key);
    head.tree := t;
    found := if key == head.root.key then head.root else null;
  }

  lemma {:induction false} NodeListed(t: Tree, n: Node)
    ensures n in Nodes(t) <==> n in InOrder(t)
  {
    if t.E? {
    } else {
      NodeListed(t.l, n);
      NodeListed(t.r, n);
    }
  }

  /** A node of the tree that is splayed comes to the root itself. */
  lemma OwnRoot(t: Tree, elm: Node)
    requires Nearest(t, elm.key) && Sorted(InOrder(t)) && elm in Nodes(t)
    ensures t.n == elm
  {
    NodeListed(t, elm);
    var s := InOrder(t);
    var i :| 0 <= i < |s| && s[i] == elm;
    NearestDecides(t, elm.key);
    assert s[|InOrder(t.l)|] == t.n;
  }

  /** SPLAY_NEXT: the node is splayed to the root, and its successor is the leftmost on the right. */
  method Next(head: Head, elm: Node) returns (next: Node?, ghost before: seq<Node>, ghost after: seq<Node>)
    requires head.Valid() && elm in Nodes(head.tree)
    modifies head, Nodes(head.tree)`left, Nodes(head.tree)`right
    ensures head.Valid() && InOrder(head.tree) == InOrder(old(head.tree)) == before + [elm] + after
    ensures next == if after == [] then null else after[0]
  {
    ghost var t, rounds := SplayTo(head, elm.key, head.tree);
    OwnRoot(t, elm);
    head.tree := t;
    before, after := InOrder(t.l), InOrder(t.r);
    ghost var m := Snap(Nodes(t));
    assert m[elm] == Links(Root(t.l), Root(t.r));
    if elm.right == null {
      return null, before, after;
    }
    next := LeftEnd(elm.right, t, t.r);
  }

  method LeftEnd(from: Node, ghost t: Tree, ghost sub: Tree) returns (next: Node)
    requires sub.T? && sub.n == from && Linked(Snap(Nodes(t)), sub)
    ensures next == InOrder(sub)[0]
  {
    next := from;
    ghost var u, m := sub, Snap(Nodes(t));
    while next.left != null
      invariant u.T? && next == u.n && Linked(m, u) && InOrder(u)[0] == InOrder(sub)[0]
      decreases u
    {
      assert m[next] == Links(Root(u.l), Root(u.r));
      next := next.left;
      u := u.l;
    }
    assert m[next] == Links(Root(u.l), Root(u.r));
  }

  lemma SortedAround(l: seq<Node>, n: Node, r: seq<Node>)
    requires Sorted(l + r) && Below(l, n.key) && Above(r, n.key)
    ensures Sorted(l + [n] + r)
  {
    var s, s' := l + r, l + [n] + r;
    forall i, j | 0 <= i < j < |s'| ensures s'[i].key < s'[j].key {
      assert i != |l| ==> s'[i] == s[if i < |l| then i else i - 1];
      assert j != |l| ==> s'[j] == s[if j < |l| then j else j - 1];
    }
  }

  lemma SortedWithout(l: seq<Node>, n: Node, r: seq<Node>)
    requires Sorted(l + [n] + r)
    ensures Sorted(l + r)
  {
    var s, s' := l + [n] + r, l + r;
    forall i, j | 0 <= i < j < |s'| ensures s'[i].key < s'[j].key {
      assert s'[i] == s[if i < |l| then i else i + 1];
      assert s'[j] == s[if j < |l| then j else j + 1];
    }
  }

  /** The new root's two subtrees: the splayed tree cut below or above its root. */
  ghost function Halves(t: Tree, key: int): (Tree, Tree)
    requires t.T?
  {
    if key < t.n.key then (t.l, T(E, t.n, t.r)) else (T(t.l, t.n, E), t.r)
  }

  lemma HalvesOrder(t: Tree, key: int)
    requires t.T?
    ensures var (l, r) := Halves(t, key); InOrder(t) == InOrder(l) + InOrder(r)
  {
    HalfOrders(InOrder(t.l), [t.n], InOrder(t.r));
  }

  lemma HalfOrders(a: seq<Node>, m: seq<Node>, b: seq<Node>)
    ensures a + ([] + m + b) == a + m + b
    ensures (a + m + []) + b == a + m + b
  {
  }

  lemma HalvesBounds(t: Tree, key: int)
    requires Nearest(t, key) && Sorted(InOrder(t)) && t.n.key != key
    ensures var (l, r) := Halves(t, key); Below(InOrder(l), key) && Above(InOrder(r), key)
  {
    NearestDecides(t, key);
    BoundsWith(InOrder(t.l), t.n, InOrder(t.r), key);
    assert InOrder(T(E, t.n, t.r)) == [] + [t.n] + InOrder(t.r);
    assert InOrder(T(t.l, t.n, E)) == InOrder(t.l) + [t.n] + [];
  }

  lemma BoundsWith(l: seq<Node>, n: Node, r: seq<Node>, key: int)
    requires Below(l, n.key) && Above(r, n.key)
    ensures key < n.key ==> Above([] + [n] + r, key)
    ensures n.key < key ==> Below(l + [n] + [], key)
  {
  }

  /** SPLAY_INSERT: returns the node that already has the key, `elm` itself perhaps, or null when `elm` went in. */
  method Insert(head: Head, elm: Node)
    returns (found: Node?, ghost before: seq<Node>, ghost after: seq<Node>, ghost rounds: nat)
    requires head.Valid()
    modifies head, (Nodes(head.tree) + {elm})`left, (Nodes(head.tree) + {elm})`right
    ensures head.Valid()
    ensures elm in Nodes(old(head.tree)) ==> found == elm
    ensures found != null <==> HasKey(old(head.tree), elm.key)
    ensures found != null ==> found.key == elm.key && found in Nodes(head.tree)
    ensures InOrder(old(head.tree)) == before + after
    ensures InOrder(head.tree) == if found == null then before + [elm] + after else before + after
    ensures Amortised(old(head.tree), head.tree, rounds, 8 * Lg(Size(head.tree)) + 2)
  {
    before, after, rounds := InOrder(head.tree), [], 0;
    found := null;
    if head.root == null {
      elm.left, elm.right := null, null;
      head.tree := T(E, elm, E);
    } else {
      ghost var was := head.tree;
      ghost var t;
      t, rounds := BringNear(head, elm);
      if elm.key == head.root.key {
        OneMoreRank(was, t, t, rounds);
        return head.root, before, after, rounds;
      }
      before, after := InsertAtRoot(head, elm, t);
      OneMoreRank(was, t, head.tree, rounds);
    }
    head.root := elm;
  }

  /** The splay before an insertion, and what the root tells after it. */
  method BringNear(head: Head, elm: Node) returns (ghost t: Tree, ghost rounds: nat)
    requires head.Valid() && head.root != null
    modifies head, Nodes(head.tree)`left, Nodes(head.tree)`right
    ensures head.Valid() && head.tree == t && Nearest(t, elm.key)
    ensures Nodes(t) == Nodes(old(head.tree)) && InOrder(t) == InOrder(old(head.tree))
    ensures Size(t) == Size(old(head.tree))
    ensures HasKey(old(head.tree), elm.key) <==> t.n.key == elm.key
    ensures elm in Nodes(t) ==> t.n == elm
    ensures Amortised(old(head.tree), t, rounds, 6 * Lg(Size(old(head.tree))) + 2)
  {
    t, rounds := SplayTo(head, elm.key, head.tree);
    RootDecides(head.tree, t, elm);
    head.tree := t;
  }

  /** What the root tells once the place of `elm` has been splayed to. */
  lemma RootDecides(was: Tree, t: Tree, elm: Node)
    requires Nearest(t, elm.key) && Sorted(InOrder(t)) && InOrder(t) == InOrder(was)
    ensures HasKey(was, elm.key) <==> t.n.key == elm.key
    ensures elm in Nodes(t) ==> t.n == elm
    ensures Size(t) == Size(was)
  {
    NearestDecides(t, elm.key);
    if elm in Nodes(t) {
      OwnRoot(t, elm);
    }
    SameSize(was, t);
  }

  lemma SameSize(t: Tree, u: Tree)
    requires InOrder(t) == InOrder(u)
    ensures Size(t) == Size(u)
  {
    SizeIsLength(t);
    SizeIsLength(u);
  }

  /** The part of the insertion behind the splay. */
  method InsertAtRoot(head: Head, elm: Node, ghost t: Tree) returns (ghost before: seq<Node>, ghost after: seq<Node>)
    requires Shows(head, t) && Nearest(t, elm.key) && Sorted(InOrder(t)) && t.n.key != elm.key && elm !in Nodes(t)
    modifies head`tree, elm`left, elm`right, t.n`left, t.n`right
    ensures head.tree.T? && head.tree.n == elm && Distinct(head.tree) && Linked(Snap(Nodes(head.tree)), head.tree)
    ensures InOrder(t) == before + after && InOrder(head.tree) == before + [elm] + after && Sorted(InOrder(head.tree))
    ensures Size(head.tree) == Size(t) + 1 && Pot(head.tree) <= Pot(t) + Lg(Size(head.tree))
  {
    HalvesOrder(t, elm.key);
    HalvesBounds(t, elm.key);
    HalvesCost(t, elm);
    ghost var (l, r) := Halves(t, elm.key);
    before, after := InOrder(l), InOrder(r);
    SortedAround(before, elm, after);
    Cut(head, elm, t);
    head.tree := T(l, elm, r);
  }

  /** What the cut writes: `elm` takes one subtree of the root and, on the other side, the root without it. */
  ghost predicate CutMem(m: Mem, m': Mem, elm: Node, root: Node) {
    && root in m && root in m' && elm in m' && Untouched(m, m', {elm, root})
    && (elm.key < root.key ==> m'[elm] == Links(m[root].left, root) && m'[root] == Links(null, m[root].right))
    && (elm.key > root.key ==> m'[elm] == Links(root, m[root].right) && m'[root] == Links(m[root].left, null))
  }

  lemma CutTree(m: Mem, m': Mem, elm: Node, t: Tree)
    requires t.T? && Linked(m, t) && Distinct(t) && elm !in Nodes(t) && elm.key != t.n.key
    requires CutMem(m, m', elm, t.n)
    ensures var (l, r) := Halves(t, elm.key);
            var t' := T(l, elm, r);
            Distinct(t') && Linked(m', t') && Nodes(t') == Nodes(t) + {elm}
  {
    LinkedFrame(m, m', t.l);
    LinkedFrame(m, m', t.r);
    assert Nodes(T(E, t.n, t.r)) == {t.n} + Nodes(t.r);
    assert Nodes(T(t.l, t.n, E)) == Nodes(t.l) + {t.n};
  }

  method CutLinks(head: Head, elm: Node, ghost all: set<Node>)
    requires head.root != null && head.root in all && elm !in all && elm.key != head.root.key
    modifies elm`left, elm`right, head.root`left, head.root`right
    ensures CutMem(old(Snap(all)), Snap(all + {elm}), elm, head.root)
  {
    var root := head.root;
    if elm.key < root.key {
      elm.left := root.left;
      elm.right := root;
      root.left := null;
    } else {
      elm.right := root.right;
      elm.left := root;
      root.right := null;
    }
  }

  /** The splayed tree is cut next to its root and hung below `elm`. */
  method Cut(head: Head, elm: Node, ghost t: Tree)
    requires Shows(head, t) && t.T? && elm !in Nodes(t) && elm.key != t.n.key
    modifies elm`left, elm`right, t.n`left, t.n`right
    ensures var (l, r) := Halves(t, elm.key);
            var t' := T(l, elm, r);
            Distinct(t') && Linked(Snap(Nodes(t')), t') && Nodes(t') == Nodes(t) + {elm}
  {
    ghost var m := Snap(Nodes(t));
    CutLinks(head, elm, Nodes(t));
    CutTree(m, Snap(Nodes(t) + {elm}), elm, t);
  }

  /** SPLAY_REMOVE: the node with `elm`'s key leaves; the two halves are joined at the left one's last node. */
  method Remove(head: Head, elm: Node)
    returns (found: Node?, ghost before: seq<Node>, ghost gone: seq<Node>, ghost after: seq<Node>, ghost rounds: nat)
    requires head.Valid()
    modifies head, Nodes(head.tree)`left, Nodes(head.tree)`right
    ensures head.Valid()
    ensures found == if HasKey(old(head.tree), elm.key) then elm else null
    ensures InOrder(old(head.tree)) == before + gone + after
    ensures found != null ==> |gone| == 1 && gone[0].key == elm.key && InOrder(head.tree) == before + after
    ensures found == null ==> InOrder(head.tree) == InOrder(old(head.tree))
    ensures Amortised(old(head.tree), head.tree, rounds, 12 * Lg(Size(old(head.tree))) + 4)
  {
    before, gone, after, rounds := InOrder(head.tree), [], [], 0;
    found := null;
    if head.root == null {
      return;
    }
    ghost var t;
    t, rounds := SplayTo(head, elm.key, head.tree);
    SameSize(head.tree, t);
    NearestDecides(t, elm.key);
    head.tree := t;
    if elm.key == head.root.key {
      before, gone, after := InOrder(t.l), [t.n], InOrder(t.r);
      SortedWithout(before, t.n, after);
      ghost var more := JoinHalves(head, elm.key, t);
      TwoSplays(old(head.tree), t, head.tree, rounds, more);
      rounds := rounds + more;
      found := elm;
    }
  }

  /** The root with the key is dropped and its two subtrees become one tree. */
  method JoinHalves(head: Head, key: int, ghost t: Tree) returns (ghost rounds: nat)
    requires Shows(head, t) && head.tree == t && t.T? && t.n.key == key && Sorted(InOrder(t))
    requires Below(InOrder(t.l), key)
    modifies head, Nodes(t)`left, Nodes(t)`right
    ensures Shows(head, head.tree) && InOrder(head.tree) == InOrder(t.l) + InOrder(t.r)
    ensures Amortised(t, head.tree, rounds, 6 * Lg(Size(t)) + 2)
  {
    rounds := 0;
    ghost var m := Snap(Nodes(t));
    assert m[t.n] == Links(Root(t.l), Root(t.r));
    SubtreesShown(t);
    if head.root.left == null {
      head.root := head.root.right;
      head.tree := t.r;
      assert Pot(t.r) <= Pot(t);
    } else {
      var tmp := head.root.right;
      head.root := head.root.left;
      SortedPrefix(InOrder(t.l), [t.n], InOrder(t.r));
      head.tree, rounds := JoinAtLast(head, key, tmp, t);
    }
  }

  /** The subtrees can be looked at on their own. */
  lemma SubtreesShown(t: Tree)
    requires t.T? && Distinct(t) && Linked(Snap(Nodes(t)), t)
    ensures Linked(Snap(Nodes(t.l)), t.l) && Linked(Snap(Nodes(t.r)), t.r)
    ensures Distinct(t.l) && Distinct(t.r) && Nodes(t.l) !! Nodes(t.r)
  {
    var m := Snap(Nodes(t));
    LinkedFrame(m, Snap(Nodes(t.l)), t.l);
    LinkedFrame(m, Snap(Nodes(t.r)), t.r);
  }

  /** The left half of `t` is splayed to its last node, which takes the right half. */
  method JoinAtLast(head: Head, key: int, tmp: Node?, ghost t: Tree) returns (ghost u: Tree, ghost rounds: nat)
    requires t.T? && Shows(head, t.l) && t.l.T? && Sorted(InOrder(t.l)) && Below(InOrder(t.l), key)
    requires Linked(Snap(Nodes(t.r)), t.r) && Distinct(t.r) && Root(t.r) == tmp && Nodes(t.l) !! Nodes(t.r)
    modifies head`root, Nodes(t.l)`left, Nodes(t.l)`right
    ensures Shows(head, u) && InOrder(u) == InOrder(t.l) + InOrder(t.r)
    ensures Amortised(t, u, rounds, 6 * Lg(Size(t)) + 2)
  {
    ghost var r := t.r;
    NodesExist(r);
    ghost var mr := Snap(Nodes(r));
    ghost var l;
    l, rounds := SplayTo(head, key, t.l);
    ghost var ml := Snap(Nodes(l));
    LastHasNoRight(l, key);
    assert Snap(Nodes(r)) == mr;
    SameSize(t.l, l);
    RejoinCost(t, l, rounds);
    head.root.right := tmp;
    HungRight(ml, mr, Snap(Nodes(l) + Nodes(r)), l, r);
    HungOrder(l, r);
    u := T(l.l, l.n, r);
  }

  lemma SortedPrefix(a: seq<Node>, m: seq<Node>, b: seq<Node>)
    requires Sorted(a + m + b)
    ensures Sorted(a)
  {
    assert forall i :: 0 <= i < |a| ==> (a + m + b)[i] == a[i];
  }

  /** When every key is smaller than the searched one, the splayed root is the last node. */
  lemma LastHasNoRight(t: Tree, key: int)
    requires Nearest(t, key) && Below(InOrder(t), key)
    ensures t.r.E?
  {
    BelowParts(InOrder(t.l), t.n, InOrder(t.r), key);
    if t.r.T? {
      FirstDecides(InOrder(t.r), key);
    }
  }

  lemma FirstDecides(s: seq<Node>, key: int)
    requires s != []
    ensures !(Below(s, key) && Above(s, key))
  {
    var first := s[0];
  }

  lemma BelowParts(l: seq<Node>, n: Node, r: seq<Node>, key: int)
    requires Below(l + [n] + r, key)
    ensures n.key < key && Below(r, key)
  {
    var s := l + [n] + r;
    assert s[|l|] == n;
    assert forall j :: 0 <= j < |r| ==> s[|l| + 1 + j] == r[j];
  }

  /** The left tree takes the right one as its last node's right subtree. */
  lemma HungRight(ml: Mem, mr: Mem, m': Mem, l: Tree, r: Tree)
    requires Linked(ml, l) && Linked(mr, r) && l.T? && l.r.E? && Distinct(l) && Distinct(r) && Nodes(l) !! Nodes(r)
    requires forall n :: n in Nodes(l) && n != l.n && n in ml ==> n in m' && m'[n] == ml[n]
    requires forall n :: n in Nodes(r) && n in mr ==> n in m' && m'[n] == mr[n]
    requires l.n in ml && l.n in m' && m'[l.n] == Links(ml[l.n].left, Root(r))
    ensures Linked(m', T(l.l, l.n, r)) && Distinct(T(l.l, l.n, r))
    ensures Nodes(T(l.l, l.n, r)) == Nodes(l) + Nodes(r)
  {
    LinkedFrame(ml, m', l.l);
    LinkedFrame(mr, m', r);
  }

  lemma HungOrder(l: Tree, r: Tree)
    requires l.T? && l.r.E?
    ensures InOrder(T(l.l, l.n, r)) == InOrder(l) + InOrder(r)
  {
    HalfOrders(InOrder(l.l), [l.n], InOrder(r));
    assert InOrder(l) == InOrder(l.l) + [l.n];
  }
}
