/** RB_INSERT and the recolouring loop behind it. */
module RbInsert {
  import opened CString
  import opened RbImage
  import opened RbLinks

  /** A red node at the focus obeys every rule, except perhaps against its parent. */
  ghost predicate Pending(k: Ctx, t: Tree) {
    && t.T? && t.c == Red
    && Balanced(t) && CBalanced(k, BH(t))
    && NoRedRed(t) && CNoRedRed(k)
  }

  /** The focus, after one round of RB_INSERT_COLOR below a red parent that is a left child. */
  ghost function FixedLeft(k: Ctx, t: Tree): (Ctx, Tree)
    requires t.T? && !k.Top? && k.up.L?
  {
    var g, pt := k.up, Hang(k, t);
    if Col(g.r) == Red then (g.up, T(pt.(c := Black), g.n, Red, g.r.(c := Black)))
    else
      var pt' := if k.R? then RotatedLeft(pt) else pt;
      (L(g.up, pt'.n, Black, T(pt'.r, g.n, Red, g.r)), pt'.l)
  }

  lemma FixedLeftRules(k: Ctx, t: Tree)
    requires Pending(k, t) && !k.Top? && k.c == Red && k.up.L?
    ensures var (k', t') := FixedLeft(k, t); Pending(k', t') && Depth(k') < Depth(k)
  {
    var g, pt := k.up, Hang(k, t);
    assert CBalanced(g, BH(t)) && CNoRedRed(g) && g.c == Black;
    assert Balanced(g.r) && BH(g.r) == BH(t) && NoRedRed(g.r);
    assert Balanced(Side(k)) && BH(Side(k)) == BH(t) && NoRedRed(Side(k)) && Col(Side(k)) == Black;
    assert Balanced(pt) && BH(pt) == BH(t);
    if Col(g.r) == Black {
      var pt' := if k.R? then RotatedLeft(pt) else pt;
      assert Balanced(pt'.l) && Balanced(pt'.r) && BH(pt'.l) == BH(pt'.r) == BH(t);
      assert NoRedRed(pt'.l) && NoRedRed(pt'.r);
    }
  }

  lemma FixedLeftOrder(k: Ctx, t: Tree)
    requires Pending(k, t) && !k.Top? && k.c == Red && k.up.L?
    ensures var (k', t') := FixedLeft(k, t); SameOrder(Plug(k, t), Plug(k', t'))
  {
    var g, pt := k.up, Hang(k, t);
    var gt := Hang(g, pt);
    if Col(g.r) == Red {
      SameOrderParts(pt, pt.(c := Black));
      SameOrderParts(g.r, g.r.(c := Black));
      SameOrderParts(gt, FixedLeft(k, t).1);
      SameOrderPlug(g.up, gt, FixedLeft(k, t).1);
    } else {
      var pt' := if k.R? then RotatedLeft(pt) else pt;
      RotationOrder(pt);
      var gt' := T(pt'.(c := Black), g.n, Red, g.r);
      SameOrderParts(pt', pt'.(c := Black));
      SameOrderParts(gt, gt');
      RotationOrder(gt');
      SameOrderPlug(g.up, gt, RotatedRight(gt'));
    }
  }

  /** One round of RB_INSERT_COLOR when the parent is a left child. */
  method FixLeft(head: Head, elm: Node, parent: Node, gparent: Node, ghost k: Ctx, ghost t: Tree)
    returns (next: Node)
    requires Shows(head, Plug(k, t)) && Pending(k, t) && t.n == elm
    requires !k.Top? && k.c == Red && k.n == parent && k.up.L? && k.up.n == gparent
    modifies head`root, Nodes(Plug(k, t))`left, Nodes(Plug(k, t))`right
    modifies Nodes(Plug(k, t))`parent, Nodes(Plug(k, t))`color
    ensures var (k', t') := FixedLeft(k, t); Shows(head, Plug(k', t')) && t'.T? && t'.n == next
  {
    ghost var g, pt := k.up, Hang(k, t);
    Look(head, g, pt);
    Look(head, k, t);
    var tmp := gparent.right;
    if tmp != null && tmp.color == Red {
      Recolor(head, tmp, parent, gparent, g, pt);
      next := gparent;
    } else {
      var p, e := parent, elm;
      if p.right == e {
        tmp := RotateLeft(head, p, g, pt);
        pt := RotatedLeft(pt);
        tmp := p;
        p := e;
        e := tmp;
      }
      SetColor(head, p, Black, g, pt);
      pt := pt.(c := Black);
      SetParentColor(head, gparent, Red, g, pt);
      g := Painted(g, Red);
      tmp := RotateRight(head, gparent, g.up, Hang(g, pt));
      next := e;
    }
  }

  /** The focus, after one round of RB_INSERT_COLOR below a red parent that is a right child. */
  ghost function FixedRight(k: Ctx, t: Tree): (Ctx, Tree)
    requires t.T? && !k.Top? && k.up.R?
  {
    var g, pt := k.up, Hang(k, t);
    if Col(g.l) == Red then (g.up, T(g.l.(c := Black), g.n, Red, pt.(c := Black)))
    else
      var pt' := if k.L? then RotatedRight(pt) else pt;
      (R(T(g.l, g.n, Red, pt'.l), pt'.n, Black, g.up), pt'.r)
  }

  lemma FixedRightRules(k: Ctx, t: Tree)
    requires Pending(k, t) && !k.Top? && k.c == Red && k.up.R?
    ensures var (k', t') := FixedRight(k, t); Pending(k', t') && Depth(k') < Depth(k)
  {
    var g, pt := k.up, Hang(k, t);
    assert CBalanced(g, BH(t)) && CNoRedRed(g) && g.c == Black;
    assert Balanced(g.l) && BH(g.l) == BH(t) && NoRedRed(g.l);
    assert Balanced(Side(k)) && BH(Side(k)) == BH(t) && NoRedRed(Side(k)) && Col(Side(k)) == Black;
    assert Balanced(pt) && BH(pt) == BH(t);
    if Col(g.l) == Black {
      var pt' := if k.L? then RotatedRight(pt) else pt;
      assert Balanced(pt'.l) && Balanced(pt'.r) && BH(pt'.l) == BH(pt'.r) == BH(t);
      assert NoRedRed(pt'.l) && NoRedRed(pt'.r);
    }
  }

  lemma FixedRightOrder(k: Ctx, t: Tree)
    requires Pending(k, t) && !k.Top? && k.c == Red && k.up.R?
    ensures var (k', t') := FixedRight(k, t); SameOrder(Plug(k, t), Plug(k', t'))
  {
    var g, pt := k.up, Hang(k, t);
    var gt := Hang(g, pt);
    if Col(g.l) == Red {
      SameOrderParts(pt, pt.(c := Black));
      SameOrderParts(g.l, g.l.(c := Black));
      SameOrderParts(gt, FixedRight(k, t).1);
      SameOrderPlug(g.up, gt, FixedRight(k, t).1);
    } else {
      var pt' := if k.L? then RotatedRight(pt) else pt;
      RotationOrder(pt);
      var gt' := T(g.l, g.n, Red, pt'.(c := Black));
      SameOrderParts(pt', pt'.(c := Black));
      SameOrderParts(gt, gt');
      RotationOrder(gt');
      SameOrderPlug(g.up, gt, RotatedLeft(gt'));
    }
  }

  /** One round of RB_INSERT_COLOR when the parent is a right child. */
  method FixRight(head: Head, elm: Node, parent: Node, gparent: Node, ghost k: Ctx, ghost t: Tree)
    returns (next: Node)
    requires Shows(head, Plug(k, t)) && Pending(k, t) && t.n == elm
    requires !k.Top? && k.c == Red && k.n == parent && k.up.R? && k.up.n == gparent
    modifies head`root, Nodes(Plug(k, t))`left, Nodes(Plug(k, t))`right
    modifies Nodes(Plug(k, t))`parent, Nodes(Plug(k, t))`color
    ensures var (k', t') := FixedRight(k, t); Shows(head, Plug(k', t')) && t'.T? && t'.n == next
  {
    ghost var g, pt := k.up, Hang(k, t);
    Look(head, g, pt);
    Look(head, k, t);
    var tmp := gparent.left;
    if tmp != null && tmp.color == Red {
      Recolor(head, tmp, parent, gparent, g, pt);
      next := gparent;
    } else {
      var p, e := parent, elm;
      if p.left == e {
        tmp := RotateRight(head, p, g, pt);
        pt := RotatedRight(pt);
        tmp := p;
        p := e;
        e := tmp;
      }
      SetColor(head, p, Black, g, pt);
      pt := pt.(c := Black);
      SetParentColor(head, gparent, Red, g, pt);
      g := Painted(g, Red);
      tmp := RotateLeft(head, gparent, g.up, Hang(g, pt));
      next := e;
    }
  }

  /** The uncle is red: it and the parent turn black, the grandparent red. */
  method Recolor(head: Head, uncle: Node, parent: Node, gparent: Node, ghost k: Ctx, ghost t: Tree)
    requires Shows(head, Plug(k, t)) && t.T? && t.n == parent
    requires !k.Top? && k.n == gparent && Side(k).T? && Side(k).n == uncle
    modifies uncle`color, parent`color, gparent`color
    ensures Shows(head, Plug(k.up, Hang(Painted(WithSide(k, Side(k).(c := Black)), Red), t.(c := Black))))
  {
    ghost var k1, t1 := WithSide(k, Side(k).(c := Black)), t.(c := Black);
    SetSideColor(head, uncle, Black, k, t);
    SetColor(head, parent, Black, k1, t);
    SetParentColor(head, gparent, Red, k1, t1);
  }

  lemma RootBlackened(k: Ctx, t: Tree)
    requires Pending(k, t) && (CCol(k) == Black || k.Top?)
    ensures Plug(k, t).T? && RedBlack(Plug(k, t).(c := Black))
  {
    PlugNodes(k, t);
    if !k.Top? {
      RulesPlug(k, t);
      TopNodeOfFrame(k, t);
    }
  }

  lemma {:induction false} TopNodeOfFrame(k: Ctx, t: Tree)
    requires t.T?
    ensures Plug(k, t).T?
    decreases k
  {
    if k.Top? {
    } else {
      TopNodeOfFrame(k.up, Hang(k, t));
    }
  }

  /** RB_INSERT_COLOR: climbs while the parent is red; the grandparent it reads always exists. */
  method InsertColor(head: Head, e: Node, ghost k0: Ctx, ghost t0: Tree) returns (ghost tree: Tree)
    requires Shows(head, Plug(k0, t0)) && Pending(k0, t0) && t0.n == e
    modifies head`root, Nodes(Plug(k0, t0))`left, Nodes(Plug(k0, t0))`right
    modifies Nodes(Plug(k0, t0))`parent, Nodes(Plug(k0, t0))`color
    ensures Shows(head, tree) && RedBlack(tree) && SameOrder(Plug(k0, t0), tree)
  {
    var elm := e;
    var parent := elm.parent;
    ghost var k, t := k0, t0;
    Look(head, k, t);
    while parent != null && parent.color == Red
      invariant Shows(head, Plug(k, t)) && Pending(k, t) && t.n == elm
      invariant parent == elm.parent == CParent(k) && (!k.Top? ==> k.c == k.n.color)
      invariant SameOrder(Plug(k0, t0), Plug(k, t))
      decreases Depth(k)
    {
      Look(head, k.up, Hang(k, t));
      var gparent := parent.parent;
      if parent == gparent.left {
        FixedLeftRules(k, t);
        FixedLeftOrder(k, t);
        elm := FixLeft(head, elm, parent, gparent, k, t);
        k, t := FixedLeft(k, t).0, FixedLeft(k, t).1;
      } else {
        FixedRightRules(k, t);
        FixedRightOrder(k, t);
        elm := FixRight(head, elm, parent, gparent, k, t);
        k, t := FixedRight(k, t).0, FixedRight(k, t).1;
      }
      Look(head, k, t);
      parent := elm.parent;
    }
    RootBlackened(k, t);
    tree := Plug(k, t);
    SetColor(head, head.root, Black, Top, tree);
    tree := tree.(c := Black);
  }

  /** Everything left of the focus is below `key`, everything right of it above. */
  ghost predicate Straddles(k: Ctx, key: CStr) {
    && (forall n :: n in Before(k) ==> Less(n.pathname, key))
    && (forall n :: n in After(k) ==> Less(key, n.pathname))
  }

  lemma SortedFocus(k: Ctx, t: Tree)
    requires t.T? && Sorted(InOrder(Plug(k, t)))
    ensures forall n :: n in InOrder(t.l) ==> Less(n.pathname, t.n.pathname)
    ensures forall n :: n in InOrder(t.r) ==> Less(t.n.pathname, n.pathname)
  {
    PlugOrder(k, t);
    var s, a, i := InOrder(Plug(k, t)), |Before(k)|, |Before(k)| + |InOrder(t.l)|;
    assert s[i] == t.n;
    forall n | n in InOrder(t.l) ensures Less(n.pathname, t.n.pathname) {
      var j :| 0 <= j < |InOrder(t.l)| && InOrder(t.l)[j] == n;
      assert s[a + j] == n;
    }
    forall n | n in InOrder(t.r) ensures Less(t.n.pathname, n.pathname) {
      var j :| 0 <= j < |InOrder(t.r)| && InOrder(t.r)[j] == n;
      assert s[i + 1 + j] == n;
    }
  }

  /** A step down keeps the searched key between what lies left and what lies right. */
  lemma StraddlesDown(k: Ctx, t: Tree, key: CStr)
    requires t.T? && Sorted(InOrder(Plug(k, t))) && Straddles(k, key)
    ensures Strcmp(key, t.n.pathname) < 0 ==> Straddles(L(k, t.n, t.c, t.r), key)
    ensures Strcmp(key, t.n.pathname) > 0 ==> Straddles(R(t.l, t.n, t.c, k), key)
  {
    SortedFocus(k, t);
    StrcmpOrder(t.n.pathname, key);
    if Less(key, t.n.pathname) {
      forall n | n in InOrder(t.r) ensures Less(key, n.pathname) {
        LessTransitive(key, t.n.pathname, n.pathname);
      }
    }
    if Less(t.n.pathname, key) {
      forall n | n in InOrder(t.l) ensures Less(n.pathname, key) {
        LessTransitive(n.pathname, t.n.pathname, key);
      }
    }
  }

  lemma EmptyFocusOrder(k: Ctx)
    ensures InOrder(Plug(k, E)) == Before(k) + After(k)
  {
    PlugOrder(k, E);
    assert Before(k) + [] + After(k) == Before(k) + After(k);
  }

  /** With nothing left at the focus, the key is absent. */
  lemma StraddlesEmpty(k: Ctx, key: CStr)
    requires Straddles(k, key)
    ensures forall n :: n in Nodes(Plug(k, E)) ==> n.pathname != key
  {
    forall n | n in Nodes(Plug(k, E)) ensures n.pathname != key {
      var i := NodeIndex(Plug(k, E), n);
      EmptyFocusOrder(k);
      StrcmpOrder(key, key);
      assert n == if i < |Before(k)| then Before(k)[i] else After(k)[i - |Before(k)|];
    }
  }

  lemma InsertedOrder(k: Ctx, elm: Node)
    requires Straddles(k, elm.pathname) && Sorted(InOrder(Plug(k, E)))
    ensures InOrder(Plug(k, T(E, elm, Red, E))) == Before(k) + [elm] + After(k)
    ensures InOrder(Plug(k, E)) == Before(k) + After(k)
    ensures Sorted(InOrder(Plug(k, T(E, elm, Red, E))))
  {
    PlugOrder(k, E);
    PlugOrder(k, T(E, elm, Red, E));
    assert InOrder(T(E, elm, Red, E)) == [elm];
    var a, b := Before(k), After(k);
    var s, s' := a + b, a + [elm] + b;
    assert InOrder(Plug(k, E)) == s;
    forall i, j | 0 <= i < j < |s'| ensures Less(s'[i].pathname, s'[j].pathname) {
      if i == |a| {
        assert s'[j] in b;
      } else if j == |a| {
        assert s'[i] in a;
      } else {
        assert s'[i] == s[if i < |a| then i else i - 1] && s'[j] == s[if j < |a| then j else j - 1];
      }
    }
  }

  lemma FilledRules(k: Ctx, elm: Node)
    requires RedBlack(Plug(k, E))
    ensures Nodes(Plug(k, T(E, elm, Red, E))) == Nodes(Plug(k, E)) + {elm}
    ensures Pending(k, T(E, elm, Red, E))
    ensures !k.Top? ==> k.n in Nodes(Plug(k, E))
  {
    RulesPlug(k, E);
    PlugNodes(k, E);
    PlugNodes(k, T(E, elm, Red, E));
  }

  /** The search loop of RB_INSERT: down to the node with the key, or to the empty place for it. */
  method Descend(head: Head, elm: Node) returns (found: Node?, parent: Node?, comp: int, ghost k: Ctx)
    requires head.Valid()
    ensures found != null ==> found in Nodes(head.tree) && found.pathname == elm.pathname
    ensures found == null ==>
      && Plug(k, E) == head.tree && Straddles(k, elm.pathname)
      && parent == CParent(k) && (!k.Top? ==> (comp < 0 <==> k.L?))
  {
    var tmp := head.root;
    parent, comp := null, 0;
    ghost var t;
    k, t := Top, head.tree;
    NodesExist(head.tree);
    while tmp != null
      invariant Plug(k, t) == head.tree && Straddles(k, elm.pathname)
      invariant tmp == Root(t) && parent == CParent(k)
      invariant !k.Top? ==> (comp < 0 <==> k.L?)
      decreases t
    {
      Look(head, k, t);
      StraddlesDown(k, t, elm.pathname);
      StrcmpOrder(elm.pathname, tmp.pathname);
      parent := tmp;
      comp := Strcmp(elm.pathname, parent.pathname);
      if comp < 0 {
        tmp := tmp.left;
        k, t := L(k, t.n, t.c, t.r), t.l;
      } else if comp > 0 {
        tmp := tmp.right;
        k, t := R(t.l, t.n, t.c, k), t.r;
      } else {
        return tmp, parent, comp, k;
      }
    }
    found := null;
  }

  /** The second half of RB_INSERT: the new leaf, and its repair. */
  method Grow(head: Head, elm: Node, parent: Node?, comp: int, ghost k: Ctx)
    requires head.Valid() && elm !in Nodes(head.tree)
    requires Plug(k, E) == head.tree && Straddles(k, elm.pathname)
    requires parent == CParent(k) && (!k.Top? ==> (comp < 0 <==> k.L?))
    modifies head, (Nodes(head.tree) + {elm})`left, (Nodes(head.tree) + {elm})`right
    modifies (Nodes(head.tree) + {elm})`parent, (Nodes(head.tree) + {elm})`color
    ensures head.Valid()
    ensures InOrder(old(head.tree)) == Before(k) + After(k)
    ensures InOrder(head.tree) == Before(k) + [elm] + After(k)
  {
    InsertedOrder(k, elm);
    FilledRules(k, elm);
    HangNew(head, elm, parent, comp, k);
    ghost var t := InsertColor(head, elm, k, T(E, elm, Red, E));
    head.tree := t;
  }

  /** In a sorted tree no two nodes have the same name. */
  lemma OnlyOne(t: Tree, a: Node, b: Node)
    requires Sorted(InOrder(t)) && a in Nodes(t) && b in Nodes(t) && a.pathname == b.pathname
    ensures a == b
  {
    var i := NodeIndex(t, a);
    var j := NodeIndex(t, b);
    StrcmpOrder(a.pathname, b.pathname);
  }

  /** RB_INSERT: returns the node that already has the key, `elm` itself perhaps, or null when `elm` went in. */
  method Insert(head: Head, elm: Node) returns (found: Node?, ghost before: seq<Node>, ghost after: seq<Node>)
    requires head.Valid()
    modifies head, (Nodes(head.tree) + {elm})`left, (Nodes(head.tree) + {elm})`right
    modifies (Nodes(head.tree) + {elm})`parent, (Nodes(head.tree) + {elm})`color
    ensures head.Valid()
    ensures elm in Nodes(old(head.tree)) ==> found == elm
    ensures found == null <==> forall n :: n in Nodes(old(head.tree)) ==> n.pathname != elm.pathname
    ensures found != null ==> found in Nodes(old(head.tree)) && found.pathname == elm.pathname
    ensures found != null ==> unchanged(head) && unchanged(elm)
    ensures found == null ==> InOrder(old(head.tree)) == before + after
    ensures found == null ==> InOrder(head.tree) == before + [elm] + after
  {
    var parent, comp;
    ghost var k;
    NodesExist(head.tree);
    found, parent, comp, k := Descend(head, elm);
    before, after := Before(k), After(k);
    if found == null {
      StraddlesEmpty(k, elm.pathname);
      Grow(head, elm, parent, comp, k);
    } else if elm in Nodes(head.tree) {
      OnlyOne(head.tree, found, elm);
    }
  }
}
