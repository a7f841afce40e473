/** The head of a red-black tree, and the relinking steps its operations are made of. */
module RbLinks {
  import opened RbImage

  class Head {
    var root: Node?
    ghost var tree: Tree

    /** The links form exactly `tree`, which obeys the colour rules and is ordered by path name. */
    ghost predicate Valid()
      reads this, Nodes(tree)
    {
      && Shows(this, tree)
      && RedBlack(tree)
      && Sorted(InOrder(tree))
    }

    constructor ()
      ensures Valid() && tree == E
    {
      root := null;
      tree := E;
    }
  }

  /** The heap reads as the whole tree `t`. */
  ghost predicate Shows(head: Head, t: Tree)
    reads head, Nodes(t)
  {
    Whole(Snap(Nodes(t)), head.root, t)
  }

  /** In the memory `m`, below `root`: exactly the tree `t`. */
  ghost predicate Whole(m: Mem, root: Node?, t: Tree) {
    root == Root(t) && Distinct(t) && Linked(m, t, null)
  }

  /** The same from a focus: the subtree `t` hangs at the end of the path `k`. */
  ghost predicate At(m: Mem, root: Node?, k: Ctx, t: Tree) {
    && root == TopNode(k, Root(t)) && Apart(k, t)
    && CLinked(m, k, Root(t)) && Linked(m, t, CParent(k))
  }

  ghost predicate Apart(k: Ctx, t: Tree) {
    CDistinct(k) && Distinct(t) && CNodes(k) !! Nodes(t)
  }

  lemma AtHang(m: Mem, root: Node?, k: Ctx, t: Tree)
    requires !k.Top?
    ensures At(m, root, k, t) <==> At(m, root, k.up, Hang(k, t))
  {
  }

  lemma {:induction false} AtCompose(m: Mem, root: Node?, inner: Ctx, outer: Ctx, t: Tree)
    ensures At(m, root, Compose(inner, outer), t) <==> At(m, root, outer, Plug(inner, t))
    decreases inner
  {
    if inner.Top? {
    } else {
      AtHang(m, root, Compose(inner, outer), t);
      AtCompose(m, root, inner.up, outer, Hang(inner, t));
    }
  }

  /** The nodes of a known image exist; a call that writes nothing therefore leaves them as they are. */
  lemma {:induction false} NodesExist(t: Tree)
    ensures forall n :: n in Nodes(t) ==> allocated(n)
  {
    if t.E? {
    } else {
      NodesExist(t.l);
      NodesExist(t.r);
    }
  }

  /** Looking at the whole tree from the focus, and back. */
  lemma AtPlug(m: Mem, root: Node?, k: Ctx, t: Tree)
    ensures At(m, root, k, t) <==> Whole(m, root, Plug(k, t))
    ensures Nodes(Plug(k, t)) == CNodes(k) + Nodes(t)
  {
    AtCompose(m, root, k, Top, t);
    ComposeTop(k);
    PlugNodes(k, t);
  }

  /** What a program reads at the focus. */
  lemma Look(head: Head, k: Ctx, t: Tree)
    requires Shows(head, Plug(k, t))
    ensures head.root == TopNode(k, Root(t))
    ensures t.T? ==>
      && t.n in Nodes(Plug(k, t))
      && t.n.left == Root(t.l) && t.n.right == Root(t.r) && t.n.parent == CParent(k) && t.n.color == t.c
    ensures !k.Top? ==>
      && k.n in Nodes(Plug(k, t))
      && k.n.left == Frame(k, Root(t)).left && k.n.right == Frame(k, Root(t)).right
      && k.n.parent == CParent(k.up) && k.n.color == k.c
      && (Side(k).T? ==>
        && Side(k).n in Nodes(Plug(k, t)) && Root(Side(k)) != Root(t)
        && Side(k).n.color == Side(k).c)
  {
    var m := Snap(Nodes(Plug(k, t)));
    AtPlug(m, head.root, k, t);
    if !k.Top? && Side(k).T? {
      assert Linked(m, Side(k), k.n) && Side(k).n in Nodes(Side(k));
    }
  }

  lemma FocusDistinct(head: Head, k: Ctx, t: Tree)
    requires Shows(head, Plug(k, t))
    ensures Distinct(t)
  {
    AtPlug(Snap(Nodes(Plug(k, t))), head.root, k, t);
  }

  /** The image after a left rotation at its root. */
  ghost function RotatedLeft(t: Tree): Tree
    requires t.T? && t.r.T?
  {
    T(T(t.l, t.n, t.c, t.r.l), t.r.n, t.r.c, t.r.r)
  }

  ghost function RotatedRight(t: Tree): Tree
    requires t.T? && t.l.T?
  {
    T(t.l.l, t.l.n, t.l.c, T(t.l.r, t.n, t.c, t.r))
  }

  /** Rotations permute nothing. */
  lemma RotationOrder(t: Tree)
    requires t.T?
    ensures t.r.T? ==> SameOrder(t, RotatedLeft(t))
    ensures t.l.T? ==> SameOrder(t, RotatedRight(t))
  {
  }

  lemma RotationDistinct(t: Tree)
    requires t.T? && Distinct(t)
    ensures t.r.T? ==> Distinct(RotatedLeft(t)) && Nodes(RotatedLeft(t)) == Nodes(t)
    ensures t.l.T? ==> Distinct(RotatedRight(t)) && Nodes(RotatedRight(t)) == Nodes(t)
  {
  }

  lemma ColorMem(m: Mem, m': Mem, k: Ctx, t: Tree, c: Color)
    requires t.T? && Apart(k, t) && CLinked(m, k, t.n) && Linked(m, t, CParent(k))
    requires m' == m[t.n := m[t.n].(color := c)]
    ensures CLinked(m', k, t.n) && Linked(m', t.(c := c), CParent(k))
  {
    CLinkedFrame(m, m', k, t.n);
    LinkedFrame(m, m', t.l, t.n);
    LinkedFrame(m, m', t.r, t.n);
  }

  /** RB_COLOR(elm) = color */
  method SetColor(head: Head, n: Node, c: Color, ghost k: Ctx, ghost t: Tree)
    requires Shows(head, Plug(k, t)) && t.T? && t.n == n
    modifies n`color
    ensures Shows(head, Plug(k, t.(c := c))) && Nodes(Plug(k, t.(c := c))) == Nodes(Plug(k, t))
  {
    ghost var all := Nodes(Plug(k, t));
    ghost var m := Snap(all);
    AtPlug(m, head.root, k, t);
    n.color := c;
    ghost var m' := Snap(all);
    ColorMem(m, m', k, t, c);
    AtPlug(m', head.root, k, t.(c := c));
  }

  ghost function LeftOf(n: Node?): Node?
    reads n
  {
    if n == null then null else n.left
  }

  ghost function RightOf(n: Node?): Node?
    reads n
  {
    if n == null then null else n.right
  }

  ghost function Opt(n: Node?): set<Node> {
    if n == null then {} else {n}
  }

  /** The frame `k` in another colour. */
  ghost function Painted(k: Ctx, c: Color): (r: Ctx)
    requires !k.Top?
    ensures !r.Top?
  {
    if k.L? then L(k.up, k.n, c, k.r) else R(k.l, k.n, c, k.up)
  }

  /** The frame `k` with another sibling subtree. */
  ghost function WithSide(k: Ctx, s: Tree): (r: Ctx)
    requires !k.Top?
    ensures !r.Top?
  {
    if k.L? then L(k.up, k.n, k.c, s) else R(s, k.n, k.c, k.up)
  }

  /** The same tree seen from the sibling of the focus. */
  ghost function AtSide(k: Ctx, t: Tree): Ctx
    requires !k.Top?
  {
    if k.L? then R(t, k.n, k.c, k.up) else L(k.up, k.n, k.c, t)
  }

  /** RB_COLOR on the sibling of the focus. */
  method SetSideColor(head: Head, n: Node, c: Color, ghost k: Ctx, ghost t: Tree)
    requires Shows(head, Plug(k, t)) && !k.Top? && Side(k).T? && Side(k).n == n
    modifies n`color
    ensures Shows(head, Plug(WithSide(k, Side(k).(c := c)), t))
    ensures Nodes(Plug(WithSide(k, Side(k).(c := c)), t)) == Nodes(Plug(k, t))
  {
    SetColor(head, n, c, AtSide(k, t), Side(k));
  }

  /** RB_COLOR on the parent of the focus. */
  method SetParentColor(head: Head, n: Node, c: Color, ghost k: Ctx, ghost t: Tree)
    requires Shows(head, Plug(k, t)) && !k.Top? && k.n == n
    modifies n`color
    ensures Shows(head, Plug(Painted(k, c), t)) && Nodes(Plug(Painted(k, c), t)) == Nodes(Plug(k, t))
  {
    SetColor(head, n, c, k.up, Hang(k, t));
  }

  /** In `m'` the link of `parent` that held `was` is redirected to `now`. */
  ghost predicate Redirected(m: Mem, m': Mem, parent: Node?, was: Node, now: Node?) {
    parent != null ==>
      && parent in m && parent in m'
      && m'[parent] == if m[parent].left == was then m[parent].(left := now) else m[parent].(right := now)
  }

  /** In `m'` the node `child`, if there is one, has another parent. */
  ghost predicate Adopted(m: Mem, m': Mem, child: Node?, parent: Node?) {
    child != null ==> child in m && child in m' && m'[child] == m[child].(parent := parent)
  }

  ghost predicate Untouched(m: Mem, m': Mem, touched: set<Node?>) {
    forall n :: n in m && n !in touched ==> n in m' && m'[n] == m[n]
  }

  /** The link that held `was` now holds `now`; `root`, `left` and `right` are the old values. */
  ghost predicate Relinked(head: Head, parent: Node?, was: Node, now: Node?, root: Node?, left: Node?, right: Node?)
    reads head, parent
  {
    if parent == null then head.root == now
    else
      && head.root == root
      && parent.left == (if left == was then now else left)
      && parent.right == (if left == was then right else now)
  }

  /** The link from above, in the parent or in the head, is redirected from `was` to `now`. */
  method Relink(head: Head, parent: Node?, was: Node, now: Node?)
    modifies head`root, Opt(parent)`left, Opt(parent)`right
    ensures Relinked(head, parent, was, now, old(head.root), old(LeftOf(parent)), old(RightOf(parent)))
  {
    if parent != null {
      if was == parent.left {
        parent.left := now;
      } else {
        parent.right := now;
      }
    } else {
      head.root := now;
    }
  }

  /** The path above the focus once its last link has been redirected to the root of another subtree. */
  lemma Replanted(m: Mem, m': Mem, root: Node?, k: Ctx, t: Tree, t': Tree, touched: set<Node?>)
    requires At(m, root, k, t) && t.T?
    requires Redirected(m, m', CParent(k), t.n, Root(t')) && Untouched(m, m', touched + {CParent(k)})
    requires forall n :: n in touched && n != null ==> n in Nodes(t)
    requires Linked(m', t', CParent(k)) && Distinct(t') && CNodes(k) !! Nodes(t')
    ensures At(m', if k.Top? then Root(t') else root, k, t')
  {
    if !k.Top? {
      assert k.n in CNodes(k);
      assert Side(k).T? ==> Side(k).n in Nodes(Side(k));
      CLinkedRelinked(m, m', k, t.n, Root(t'));
    }
  }

  /** What the memory holds at the focus, and at the end of the path to it. */
  lemma FocusFacts(m: Mem, root: Node?, k: Ctx, t: Tree)
    requires At(m, root, k, t) && t.T?
    ensures t.n in m && m[t.n] == Links(Root(t.l), Root(t.r), CParent(k), t.c)
    ensures t.l.T? ==> t.l.n in m && m[t.l.n] == Links(Root(t.l.l), Root(t.l.r), t.n, t.l.c)
    ensures t.r.T? ==> t.r.n in m && m[t.r.n] == Links(Root(t.r.l), Root(t.r.r), t.n, t.r.c)
    ensures CParent(k) != null ==> CParent(k) in m && CParent(k) in CNodes(k) && CParent(k) !in Nodes(t)
  {
    assert Linked(m, t.l, t.n) && Linked(m, t.r, t.n);
  }

  /** What a left rotation at `elm` writes. */
  ghost predicate LeftMem(m: Mem, m': Mem, elm: Node, tmp: Node, b: Node?, parent: Node?) {
    && elm in m && elm in m' && m'[elm] == m[elm].(right := b, parent := tmp)
    && tmp in m && tmp in m' && m'[tmp] == m[tmp].(left := elm, parent := parent)
    && Adopted(m, m', b, elm) && Redirected(m, m', parent, elm, tmp)
    && Untouched(m, m', {elm, tmp, b, parent})
  }

  /** The nodes a left rotation touches are different ones. */
  lemma LeftApart(t: Tree)
    requires t.T? && t.r.T? && Distinct(t)
    ensures t.n != t.r.n && Root(t.r.l) !in {t.n, t.r.n} && {t.n, t.r.n} <= Nodes(t)
    ensures t.r.l.T? ==> t.r.l.n in Nodes(t)
  {
    assert Distinct(t.r) && Nodes(t.r) == Nodes(t.r.l) + {t.r.n} + Nodes(t.r.r);
    assert t.r.l.T? ==> t.r.l.n in Nodes(t.r.l);
  }

  lemma LeftTree(m: Mem, m': Mem, t: Tree, parent: Node?)
    requires t.T? && t.r.T? && Linked(m, t, parent) && Distinct(t) && parent !in Nodes(t)
    requires LeftMem(m, m', t.n, t.r.n, Root(t.r.l), parent)
    ensures Linked(m', RotatedLeft(t), parent)
  {
    var b := t.r.l;
    LeftApart(t);
    assert Linked(m, t.r, t.n) && Distinct(t.r) && Nodes(t.r) == Nodes(t.r.l) + {t.r.n} + Nodes(t.r.r);
    assert Linked(m, b, t.r.n);
    LinkedFrame(m, m', t.l, t.n);
    LinkedAdopted(m, m', b, t.r.n, t.n);
    LinkedFrame(m, m', t.r.r, t.r.n);
  }

  lemma LeftAt(m: Mem, m': Mem, root: Node?, k: Ctx, t: Tree)
    requires t.T? && t.r.T? && At(m, root, k, t)
    requires LeftMem(m, m', t.n, t.r.n, Root(t.r.l), CParent(k))
    ensures At(m', if k.Top? then t.r.n else root, k, RotatedLeft(t))
    ensures Nodes(RotatedLeft(t)) == Nodes(t)
  {
    FocusFacts(m, root, k, t);
    LeftApart(t);
    RotationDistinct(t);
    LeftTree(m, m', t, CParent(k));
    Replanted(m, m', root, k, t, RotatedLeft(t), {t.n, t.r.n, Root(t.r.l)});
  }

  /** RB_ROTATE_LEFT on the fields; the macro's `tmp` is returned. */
  method RotateLeftLinks(head: Head, elm: Node) returns (tmp: Node)
    requires elm.right != null && elm.right != elm && elm.right.left !in {elm, elm.right}
    requires elm.parent != null ==> elm.parent !in {elm, elm.right, elm.right.left}
    modifies head`root, elm`right, elm`parent, elm.right`left, elm.right`parent, Opt(elm.right.left)`parent
    modifies Opt(elm.parent)`left, Opt(elm.parent)`right
    ensures tmp == old(elm.right) && tmp.left == elm && tmp.parent == old(elm.parent)
    ensures elm.parent == tmp && elm.right == old(elm.right.left)
    ensures elm.right != null ==> elm.right.parent == elm
    ensures Relinked(head, tmp.parent, elm, tmp, old(head.root), old(LeftOf(elm.parent)), old(RightOf(elm.parent)))
  {
    tmp := elm.right;
    elm.right := tmp.left;
    if elm.right != null {
      tmp.left.parent := elm;
    }
    tmp.parent := elm.parent;
    Relink(head, tmp.parent, elm, tmp);
    tmp.left := elm;
    elm.parent := tmp;
  }

  /** The same, on the memory of a set of nodes. */
  method RotateLeftIn(head: Head, elm: Node, ghost all: set<Node>) returns (tmp: Node)
    requires elm in all && elm.right != null && elm.right in all
    requires elm.right != elm && elm.right.left !in {elm, elm.right}
    requires elm.right.left == null || elm.right.left in all
    requires elm.parent != null ==> elm.parent in all && elm.parent !in {elm, elm.right, elm.right.left}
    modifies head`root, elm`right, elm`parent, elm.right`left, elm.right`parent, Opt(elm.right.left)`parent
    modifies Opt(elm.parent)`left, Opt(elm.parent)`right
    ensures tmp == old(elm.right)
    ensures LeftMem(old(Snap(all)), Snap(all), elm, tmp, old(elm.right.left), old(elm.parent))
    ensures head.root == if old(elm.parent) == null then tmp else old(head.root)
  {
    tmp := RotateLeftLinks(head, elm);
  }

  method RotateLeft(head: Head, elm: Node, ghost k: Ctx, ghost t: Tree) returns (tmp: Node)
    requires Shows(head, Plug(k, t)) && t.T? && t.n == elm && t.r.T?
    modifies head`root, Nodes(Plug(k, t))`left, Nodes(Plug(k, t))`right, Nodes(Plug(k, t))`parent
    ensures tmp == t.r.n
    ensures Shows(head, Plug(k, RotatedLeft(t))) && Nodes(Plug(k, RotatedLeft(t))) == Nodes(Plug(k, t))
  {
    ghost var all := Nodes(Plug(k, t));
    ghost var m, root := Snap(all), head.root;
    AtPlug(m, root, k, t);
    FocusFacts(m, root, k, t);
    LeftApart(t);
    tmp := RotateLeftIn(head, elm, all);
    ghost var m' := Snap(all);
    LeftAt(m, m', root, k, t);
    AtPlug(m', head.root, k, RotatedLeft(t));
  }

  /** What a right rotation at `elm` writes. */
  ghost predicate RightMem(m: Mem, m': Mem, elm: Node, tmp: Node, b: Node?, parent: Node?) {
    && elm in m && elm in m' && m'[elm] == m[elm].(left := b, parent := tmp)
    && tmp in m && tmp in m' && m'[tmp] == m[tmp].(right := elm, parent := parent)
    && Adopted(m, m', b, elm) && Redirected(m, m', parent, elm, tmp)
    && Untouched(m, m', {elm, tmp, b, parent})
  }

  /** The nodes a right rotation touches are different ones. */
  lemma RightApart(t: Tree)
    requires t.T? && t.l.T? && Distinct(t)
    ensures t.n != t.l.n && Root(t.l.r) !in {t.n, t.l.n} && {t.n, t.l.n} <= Nodes(t)
    ensures t.l.r.T? ==> t.l.r.n in Nodes(t)
  {
    assert Distinct(t.l) && Nodes(t.l) == Nodes(t.l.l) + {t.l.n} + Nodes(t.l.r);
    assert t.l.r.T? ==> t.l.r.n in Nodes(t.l.r);
  }

  lemma RightTree(m: Mem, m': Mem, t: Tree, parent: Node?)
    requires t.T? && t.l.T? && Linked(m, t, parent) && Distinct(t) && parent !in Nodes(t)
    requires RightMem(m, m', t.n, t.l.n, Root(t.l.r), parent)
    ensures Linked(m', RotatedRight(t), parent)
  {
    var b := t.l.r;
    RightApart(t);
    assert Linked(m, t.l, t.n) && Distinct(t.l) && Nodes(t.l) == Nodes(t.l.l) + {t.l.n} + Nodes(t.l.r);
    assert Linked(m, b, t.l.n);
    LinkedFrame(m, m', t.r, t.n);
    LinkedAdopted(m, m', b, t.l.n, t.n);
    LinkedFrame(m, m', t.l.l, t.l.n);
  }

  lemma RightAt(m: Mem, m': Mem, root: Node?, k: Ctx, t: Tree)
    requires t.T? && t.l.T? && At(m, root, k, t)
    requires RightMem(m, m', t.n, t.l.n, Root(t.l.r), CParent(k))
    ensures At(m', if k.Top? then t.l.n else root, k, RotatedRight(t))
    ensures Nodes(RotatedRight(t)) == Nodes(t)
  {
    FocusFacts(m, root, k, t);
    RightApart(t);
    RotationDistinct(t);
    RightTree(m, m', t, CParent(k));
    Replanted(m, m', root, k, t, RotatedRight(t), {t.n, t.l.n, Root(t.l.r)});
  }

  /** RB_ROTATE_RIGHT on the fields; the macro's `tmp` is returned. */
  method RotateRightLinks(head: Head, elm: Node) returns (tmp: Node)
    requires elm.left != null && elm.left != elm && elm.left.right !in {elm, elm.left}
    requires elm.parent != null ==> elm.parent !in {elm, elm.left, elm.left.right}
    modifies head`root, elm`left, elm`parent, elm.left`right, elm.left`parent, Opt(elm.left.right)`parent
    modifies Opt(elm.parent)`left, Opt(elm.parent)`right
    ensures tmp == old(elm.left) && tmp.right == elm && tmp.parent == old(elm.parent)
    ensures elm.parent == tmp && elm.left == old(elm.left.right)
    ensures elm.left != null ==> elm.left.parent == elm
    ensures Relinked(head, tmp.parent, elm, tmp, old(head.root), old(LeftOf(elm.parent)), old(RightOf(elm.parent)))
  {
    tmp := elm.left;
    elm.left := tmp.right;
    if elm.left != null {
      tmp.right.parent := elm;
    }
    tmp.parent := elm.parent;
    Relink(head, tmp.parent, elm, tmp);
    tmp.right := elm;
    elm.parent := tmp;
  }

  /** The same, on the memory of a set of nodes. */
  method RotateRightIn(head: Head, elm: Node, ghost all: set<Node>) returns (tmp: Node)
    requires elm in all && elm.left != null && elm.left in all
    requires elm.left != elm && elm.left.right !in {elm, elm.left}
    requires elm.left.right == null || elm.left.right in all
    requires elm.parent != null ==> elm.parent in all && elm.parent !in {elm, elm.left, elm.left.right}
    modifies head`root, elm`left, elm`parent, elm.left`right, elm.left`parent, Opt(elm.left.right)`parent
    modifies Opt(elm.parent)`left, Opt(elm.parent)`right
    ensures tmp == old(elm.left)
    ensures RightMem(old(Snap(all)), Snap(all), elm, tmp, old(elm.left.right), old(elm.parent))
    ensures head.root == if old(elm.parent) == null then tmp else old(head.root)
  {
    tmp := RotateRightLinks(head, elm);
  }

  method RotateRight(head: Head, elm: Node, ghost k: Ctx, ghost t: Tree) returns (tmp: Node)
    requires Shows(head, Plug(k, t)) && t.T? && t.n == elm && t.l.T?
    modifies head`root, Nodes(Plug(k, t))`left, Nodes(Plug(k, t))`right, Nodes(Plug(k, t))`parent
    ensures tmp == t.l.n
    ensures Shows(head, Plug(k, RotatedRight(t))) && Nodes(Plug(k, RotatedRight(t))) == Nodes(Plug(k, t))
  {
    ghost var all := Nodes(Plug(k, t));
    ghost var m, root := Snap(all), head.root;
    AtPlug(m, root, k, t);
    FocusFacts(m, root, k, t);
    RightApart(t);
    tmp := RotateRightIn(head, elm, all);
    ghost var m' := Snap(all);
    RightAt(m, m', root, k, t);
    AtPlug(m', head.root, k, RotatedRight(t));
  }

  /** The child that takes the place of a node with at most one child. */
  ghost function Heir(t: Tree): Tree
    requires t.T?
  {
    if t.l.E? then t.r else t.l
  }

  /** What is written when `child` takes the place of `elm`. */
  ghost predicate UnlinkedMem(m: Mem, m': Mem, elm: Node, child: Node?, parent: Node?) {
    && Adopted(m, m', child, parent) && Redirected(m, m', parent, elm, child)
    && Untouched(m, m', {elm, child, parent})
  }

  lemma UnlinkedAt(m: Mem, m': Mem, root: Node?, k: Ctx, t: Tree)
    requires t.T? && (t.l.E? || t.r.E?) && At(m, root, k, t)
    requires UnlinkedMem(m, m', t.n, Root(Heir(t)), CParent(k))
    ensures At(m', if k.Top? then Root(Heir(t)) else root, k, Heir(t))
    ensures CNodes(k) + Nodes(Heir(t)) == CNodes(k) + Nodes(t) - {t.n}
  {
    var c := Heir(t);
    FocusFacts(m, root, k, t);
    assert c.T? ==> c.n in Nodes(c);
    LinkedAdopted(m, m', c, t.n, CParent(k));
    Replanted(m, m', root, k, t, c, {t.n, Root(c)});
  }

  /** The child of a node with at most one child takes its place, on the fields. */
  method UnlinkLinks(head: Head, elm: Node, child: Node?, parent: Node?, ghost all: set<Node>)
    requires elm in all && (child == null || child in all) && (parent == null || parent in all)
    requires child != elm && parent != elm && (child == null || child != parent)
    modifies head`root, Opt(child)`parent, Opt(parent)`left, Opt(parent)`right
    ensures UnlinkedMem(old(Snap(all)), Snap(all - {elm}), elm, child, parent)
    ensures head.root == if parent == null then child else old(head.root)
  {
    if child != null {
      child.parent := parent;
    }
    Relink(head, parent, elm, child);
  }

  /** The child of a node with at most one child takes its place; the node's own fields stay. */
  method Unlink(head: Head, elm: Node, child: Node?, parent: Node?, ghost k: Ctx, ghost t: Tree)
    requires Shows(head, Plug(k, t)) && t.T? && t.n == elm && (t.l.E? || t.r.E?)
    requires child == Root(Heir(t)) && parent == elm.parent
    modifies head`root, Opt(child)`parent, Opt(parent)`left, Opt(parent)`right
    ensures Shows(head, Plug(k, Heir(t))) && Nodes(Plug(k, Heir(t))) == Nodes(Plug(k, t)) - {elm}
  {
    ghost var all := Nodes(Plug(k, t));
    ghost var m, root := Snap(all), head.root;
    AtPlug(m, root, k, t);
    FocusFacts(m, root, k, t);
    ChildrenApart(t);
    UnlinkLinks(head, elm, child, parent, all);
    ghost var m' := Snap(all - {elm});
    UnlinkedAt(m, m', root, k, t);
    AtPlug(m', head.root, k, Heir(t));
  }

  /** What is written when `elm` takes over the links, the colour and the place of `was`. */
  ghost predicate ReplacedMem(m: Mem, m': Mem, was: Node, elm: Node) {
    && was in m && elm in m' && m'[elm] == m[was]
    && Adopted(m, m', m[was].left, elm) && Adopted(m, m', m[was].right, elm)
    && Redirected(m, m', m[was].parent, was, elm)
    && Untouched(m, m', {was, m[was].left, m[was].right, m[was].parent})
  }

  lemma ReplacedTree(m: Mem, m': Mem, t: Tree, elm: Node, parent: Node?)
    requires t.T? && Linked(m, t, parent) && Distinct(t) && elm !in Nodes(t) && parent !in Nodes(t)
    requires ReplacedMem(m, m', t.n, elm)
    ensures Linked(m', T(t.l, elm, t.c, t.r), parent)
  {
    ChildrenApart(t);
    LinkedAdopted(m, m', t.l, t.n, elm);
    LinkedAdopted(m, m', t.r, t.n, elm);
  }

  lemma ReplacedAt(m: Mem, m': Mem, root: Node?, k: Ctx, t: Tree, elm: Node)
    requires t.T? && elm !in CNodes(k) + Nodes(t) && At(m, root, k, t) && ReplacedMem(m, m', t.n, elm)
    ensures var t' := T(t.l, elm, t.c, t.r);
            && At(m', if k.Top? then elm else root, k, t')
            && CNodes(k) + Nodes(t') == CNodes(k) + Nodes(t) - {t.n} + {elm}
  {
    FocusFacts(m, root, k, t);
    ChildrenApart(t);
    ReplacedTree(m, m', t, elm, CParent(k));
    Replanted(m, m', root, k, t, T(t.l, elm, t.c, t.r), {t.n, Root(t.l), Root(t.r)});
  }

  /** The assignments of the replacement, on the fields. */
  method ReplaceLinks(head: Head, was: Node, elm: Node)
    requires was.left != null && was != elm && was.left !in {was, elm} && was.right !in {was, elm, was.left}
    requires was.parent != null ==> was.parent !in {was, elm, was.left, was.right}
    modifies head`root, elm`left, elm`right, elm`parent, elm`color, was.left`parent, Opt(was.right)`parent
    modifies Opt(was.parent)`left, Opt(was.parent)`right
    ensures elm.left == was.left && elm.right == was.right && elm.parent == was.parent && elm.color == was.color
    ensures was.left.parent == elm && (was.right != null ==> was.right.parent == elm)
    ensures Relinked(head, was.parent, was, elm, old(head.root), old(LeftOf(was.parent)), old(RightOf(was.parent)))
  {
    elm.left, elm.right, elm.parent, elm.color := was.left, was.right, was.parent, was.color;
    Relink(head, was.parent, was, elm);
    was.left.parent := elm;
    if was.right != null {
      was.right.parent := elm;
    }
  }

  /** The same, on the memory of a set of nodes. */
  method ReplaceIn(head: Head, was: Node, elm: Node, ghost all: set<Node>)
    requires was in all && elm !in all
    requires was.left != null && was.left in all && was.left != was
    requires was.right != null ==> was.right in all && was.right !in {was, was.left}
    requires was.parent != null ==> was.parent in all && was.parent !in {was, was.left, was.right}
    modifies head`root, elm`left, elm`right, elm`parent, elm`color, was.left`parent, Opt(was.right)`parent
    modifies Opt(was.parent)`left, Opt(was.parent)`right
    ensures ReplacedMem(old(Snap(all)), Snap(all - {was} + {elm}), was, elm)
    ensures head.root == if old(was.parent) == null then elm else old(head.root)
  {
    ReplaceLinks(head, was, elm);
  }

  /** `elm` takes over the links, the colour and the place of `was`, whose left child exists. */
  method Replace(head: Head, was: Node, elm: Node, ghost k: Ctx, ghost t: Tree)
    requires Shows(head, Plug(k, t)) && t.T? && t.n == was && t.l.T? && elm !in Nodes(Plug(k, t))
    modifies head`root, elm`left, elm`right, elm`parent, elm`color
    modifies Nodes(Plug(k, t))`left, Nodes(Plug(k, t))`right, Nodes(Plug(k, t))`parent
    ensures Shows(head, Plug(k, T(t.l, elm, t.c, t.r)))
    ensures Nodes(Plug(k, T(t.l, elm, t.c, t.r))) == Nodes(Plug(k, t)) - {was} + {elm}
  {
    ghost var all := Nodes(Plug(k, t));
    ghost var m, root := Snap(all), head.root;
    AtPlug(m, root, k, t);
    FocusFacts(m, root, k, t);
    ChildrenApart(t);
    ReplaceIn(head, was, elm, all);
    ghost var m' := Snap(all - {was} + {elm});
    ReplacedAt(m, m', root, k, t, elm);
    AtPlug(m', head.root, k, T(t.l, elm, t.c, t.r));
  }

  lemma ChildrenApart(t: Tree)
    requires t.T? && Distinct(t)
    ensures t.l.T? ==> t.l.n in Nodes(t) && t.l.n != t.n && Root(t.r) != t.l.n
    ensures t.r.T? ==> t.r.n in Nodes(t) && t.r.n != t.n
  {
    assert t.l.T? ==> t.l.n in Nodes(t.l);
    assert t.r.T? ==> t.r.n in Nodes(t.r);
  }

  lemma HangNewMem(m: Mem, m': Mem, k: Ctx, elm: Node)
    requires CLinked(m, k, null) && CDistinct(k) && elm !in CNodes(k)
    requires elm in m' && m'[elm] == Links(null, null, CParent(k), Red)
    requires !k.Top? ==> k.n in m' && m'[k.n] == Frame(k, elm)
    requires forall n :: n in m && n != CParent(k) ==> n in m' && m'[n] == m[n]
    ensures Apart(k, T(E, elm, Red, E))
    ensures CLinked(m', k, elm) && Linked(m', T(E, elm, Red, E), CParent(k))
    ensures CNodes(k) + Nodes(T(E, elm, Red, E)) == CNodes(k) + Nodes(E) + {elm}
  {
    CLinkedRelinked(m, m', k, null, elm);
  }

  /** RB_SET and the link from the parent: a red leaf fills the empty focus. */
  method HangNew(head: Head, elm: Node, parent: Node?, comp: int, ghost k: Ctx)
    requires Shows(head, Plug(k, E)) && elm !in Nodes(Plug(k, E))
    requires parent == CParent(k) && (!k.Top? ==> (comp < 0 <==> k.L?))
    modifies head`root, elm`left, elm`right, elm`parent, elm`color, Opt(parent)`left, Opt(parent)`right
    ensures Shows(head, Plug(k, T(E, elm, Red, E)))
  {
    ghost var all := Nodes(Plug(k, E));
    ghost var m := Snap(all);
    AtPlug(m, head.root, k, E);
    assert !k.Top? ==> k.n in CNodes(k);
    elm.parent := parent;
    elm.left, elm.right := null, null;
    elm.color := Red;
    if parent != null {
      if comp < 0 {
        parent.left := elm;
      } else {
        parent.right := elm;
      }
    } else {
      head.root := elm;
    }
    ghost var m' := Snap(all + {elm});
    HangNewMem(m, m', k, elm);
    AtPlug(m', head.root, k, T(E, elm, Red, E));
  }
}
