/** RB_REMOVE and the loop that repairs a missing black node. */
module RbRemove {
  import opened CString
  import opened RbImage
  import opened RbLinks

  ghost function Blackened(t: Tree): Tree {
    if t.E? then E else t.(c := Black)
  }

  /** The focus is one black node short; every other rule holds, up to the colour of its root. */
  ghost predicate Short(k: Ctx, t: Tree) {
    && Balanced(t) && CBalanced(k, BH(t) + 1)
    && NoRedRed(Blackened(t)) && CNoRedRed(k)
  }

  /** Rounds left: none once the focus is red. */
  ghost function Rounds(k: Ctx, t: Tree): nat {
    if Col(t) == Red then 0 else 1 + Depth(k)
  }

  /** A black node is missing below, so the sibling subtree holds one. */
  lemma SiblingExists(k: Ctx, t: Tree)
    requires Short(k, t) && !k.Top?
    ensures Side(k).T?
  {
  }

  /** A sibling with two black children turns red, and the parent is short instead. */
  lemma BothBlackRules(k: Ctx, t: Tree)
    requires Short(k, t) && !k.Top? && Col(t) == Black && Side(k).T? && Side(k).c == Black
    requires Col(Side(k).l) == Black && Col(Side(k).r) == Black
    ensures var up := Hang(WithSide(k, Side(k).(c := Red)), t);
            && Short(k.up, up) && SameOrder(Plug(k, t), Plug(k.up, up))
            && Rounds(k.up, up) <= (if k.c == Red then 0 else Depth(k))
  {
    var s := Side(k).(c := Red);
    assert SameOrder(Side(k), s) && Balanced(s) && BH(s) == BH(t) && NoRedRed(s) && NoRedRed(t);
    SameOrderPlug(k.up, Hang(k, t), Hang(WithSide(k, s), t));
  }

  // ---------- the focus is a left child ----------

  /** The path to the focus once a red sibling has been rotated away. */
  ghost function FreedLeft(k: Ctx): Ctx
    requires k.L? && k.r.T?
  {
    if k.r.c == Red then L(L(k.up, k.r.n, Black, k.r.r), k.n, Red, k.r.l) else k
  }

  lemma FreedLeftRules(k: Ctx, t: Tree)
    requires Short(k, t) && k.L? && k.r.T?
    ensures var f := FreedLeft(k);
            && Short(f, t) && f.r.T? && f.r.c == Black
            && (f == k || (f.c == Red && Depth(f) == Depth(k) + 1))
  {
  }

  lemma FreedLeftOrder(k: Ctx, t: Tree)
    requires k.L? && k.r.T?
    ensures SameOrder(Plug(k, t), Plug(FreedLeft(k), t))
  {
    if k.r.c == Red {
      var pt := T(t, k.n, Red, k.r.(c := Black));
      RotationOrder(pt);
      SameOrderPlug(k.up, Hang(k, t), RotatedLeft(pt));
    }
  }

  method FreeLeft(head: Head, parent: Node, sibling: Node, ghost k: Ctx, ghost t: Tree) returns (tmp: Node)
    requires Shows(head, Plug(k, t)) && Short(k, t) && k.L? && k.n == parent && k.r.T? && k.r.n == sibling
    modifies head`root, Nodes(Plug(k, t))`left, Nodes(Plug(k, t))`right
    modifies Nodes(Plug(k, t))`parent, Nodes(Plug(k, t))`color
    ensures Shows(head, Plug(FreedLeft(k), t)) && FreedLeft(k).r.T? && tmp == FreedLeft(k).r.n
  {
    tmp := sibling;
    Look(head, k, t);
    FreedLeftRules(k, t);
    if tmp.color == Red {
      SetSideColor(head, tmp, Black, k, t);
      ghost var k1 := WithSide(k, k.r.(c := Black));
      SetParentColor(head, parent, Red, k1, t);
      tmp := RotateLeft(head, parent, k.up, T(t, k.n, Red, k.r.(c := Black)));
      Look(head, FreedLeft(k), t);
      tmp := parent.right;
    }
  }

  /** The sibling with its red child brought to the far side. */
  ghost function FarRight(s: Tree): Tree
    requires s.T? && !(Col(s.l) == Black && Col(s.r) == Black)
  {
    if Col(s.r) == Black then RotatedRight(T(s.l.(c := Black), s.n, Red, s.r)) else s
  }

  lemma FarRightRules(s: Tree)
    requires s.T? && s.c == Black && Balanced(s) && NoRedRed(s) && !(Col(s.l) == Black && Col(s.r) == Black)
    ensures var f := FarRight(s);
            && f.T? && f.c == Black && Balanced(f) && BH(f) == BH(s)
            && NoRedRed(f) && Col(f.r) == Red
            && SameOrder(s, f)
  {
    if Col(s.r) == Black {
      var l := s.l;
      assert Balanced(l) && Balanced(s.r) && Balanced(l.l) && Balanced(l.r) && BH(l.l) == BH(l.r) == BH(s.r);
      assert NoRedRed(l) && NoRedRed(s.r) && NoRedRed(l.l) && NoRedRed(l.r);
      RotationOrder(T(l.(c := Black), s.n, Red, s.r));
      assert SameOrder(l, l.(c := Black));
    }
  }

  /** The subtree of the parent after the last case: the missing black node is back. */
  ghost function MendedLeft(k: Ctx, t: Tree): Tree
    requires k.L? && k.r.T? && Col(k.r.r) == Red
  {
    T(T(t, k.n, Black, k.r.l), k.r.n, k.c, k.r.r.(c := Black))
  }

  lemma MendedLeftRules(k: Ctx, t: Tree)
    requires Short(k, t) && Col(t) == Black && k.L? && k.r.T? && k.r.c == Black && Col(k.r.r) == Red
    ensures Rules(k.up, MendedLeft(k, t)) && SameOrder(Plug(k, t), Plug(k.up, MendedLeft(k, t)))
  {
    var s, m := k.r, MendedLeft(k, t);
    assert Balanced(s.l) && Balanced(s.r) && NoRedRed(s.l) && NoRedRed(s.r);
    assert Balanced(m.l) && Balanced(m.r) && BH(m.l) == BH(m.r) == BH(t) + 1;
    assert NoRedRed(m.l) && NoRedRed(m.r);
    var pt := T(t, k.n, Black, T(s.l, s.n, k.c, s.r.(c := Black)));
    RotationOrder(pt);
    assert SameOrder(s.r, s.r.(c := Black));
    assert SameOrder(s, pt.r);
    assert SameOrder(Hang(k, t), pt);
    SameOrderPlug(k.up, Hang(k, t), m);
  }

  /** The last case of the loop: at most two rotations end the repair. */
  method MendLeft(head: Head, parent: Node, sibling: Node, ghost k: Ctx, ghost t: Tree)
    requires Shows(head, Plug(k, t)) && Short(k, t) && Col(t) == Black
    requires k.L? && k.n == parent && k.r.T? && k.r.n == sibling && k.r.c == Black
    requires !(Col(k.r.l) == Black && Col(k.r.r) == Black)
    modifies head`root, Nodes(Plug(k, t))`left, Nodes(Plug(k, t))`right
    modifies Nodes(Plug(k, t))`parent, Nodes(Plug(k, t))`color
    ensures Shows(head, Plug(k.up, MendedLeft(WithSide(k, FarRight(k.r)), t)))
  {
    var tmp := sibling;
    ghost var s := k.r;
    ghost var side := AtSide(k, t);
    Look(head, side, s);
    Look(head, R(s.l, s.n, s.c, side), s.r);
    Look(head, L(side, s.n, s.c, s.r), s.l);
    if tmp.right == null || tmp.right.color == Black {
      var oleft := tmp.left;
      if oleft != null {
        SetSideColor(head, oleft, Black, R(s.l, s.n, s.c, side), s.r);
        s := s.(l := s.l.(c := Black));
      }
      SetColor(head, tmp, Red, side, s);
      s := s.(c := Red);
      oleft := RotateRight(head, tmp, side, s);
      s := RotatedRight(s);
      Look(head, WithSide(k, s), t);
      tmp := parent.right;
    }
    assert s == FarRight(k.r);
    Look(head, WithSide(k, s), t);
    SetColor(head, tmp, parent.color, side, s);
    s := s.(c := k.c);
    SetParentColor(head, parent, Black, WithSide(k, s), t);
    ghost var kb := Painted(WithSide(k, s), Black);
    side := AtSide(kb, t);
    Look(head, side, s);
    if tmp.right != null {
      SetSideColor(head, tmp.right, Black, L(side, s.n, s.c, s.r), s.l);
      s := s.(r := s.r.(c := Black));
    }
    tmp := RotateLeft(head, parent, k.up, T(t, k.n, Black, s));
  }

  /** Both steps of the last case, on the image. */
  lemma SettledLeft(k: Ctx, t: Tree)
    requires Short(k, t) && Col(t) == Black && k.L? && k.r.T? && k.r.c == Black
    requires !(Col(k.r.l) == Black && Col(k.r.r) == Black)
    ensures Col(FarRight(k.r).r) == Red && FarRight(k.r).T?
    ensures var t' := MendedLeft(WithSide(k, FarRight(k.r)), t);
            Rules(k.up, t') && SameOrder(Plug(k, t), Plug(k.up, t'))
  {
    var s := k.r;
    FarRightRules(s);
    var g := WithSide(k, FarRight(s));
    assert Short(g, t);
    SameOrderPlug(AtSide(k, t), s, FarRight(s));
    MendedLeftRules(g, t);
  }

  /** The sibling is black: the parent becomes the short one, or the repair ends. */
  method SettleLeft(head: Head, parent: Node, tmp: Node, ghost k: Ctx, ghost t: Tree)
    returns (parent': Node?, elm': Node?, broke: bool, ghost k': Ctx, ghost t': Tree)
    requires Shows(head, Plug(k, t)) && Short(k, t) && Col(t) == Black
    requires k.L? && k.n == parent && k.r.T? && k.r.n == tmp && k.r.c == Black
    modifies head`root, Nodes(Plug(k, t))`left, Nodes(Plug(k, t))`right
    modifies Nodes(Plug(k, t))`parent, Nodes(Plug(k, t))`color
    ensures Shows(head, Plug(k', t')) && SameOrder(Plug(k, t), Plug(k', t'))
    ensures broke ==> Rules(k', t') && elm' == head.root
    ensures !broke ==>
      && Short(k', t') && elm' == Root(t') && parent' == CParent(k')
      && Rounds(k', t') <= (if k.c == Red then 0 else Depth(k))
  {
    ghost var s := k.r;
    ghost var side := AtSide(k, t);
    Look(head, side, s);
    Look(head, R(s.l, s.n, s.c, side), s.r);
    Look(head, L(side, s.n, s.c, s.r), s.l);
    if (tmp.left == null || tmp.left.color == Black) && (tmp.right == null || tmp.right.color == Black) {
      SetSideColor(head, tmp, Red, k, t);
      k', t' := k.up, Hang(WithSide(k, s.(c := Red)), t);
      Look(head, k', t');
      BothBlackRules(k, t);
      elm', parent', broke := parent, parent.parent, false;
    } else {
      SettledLeft(k, t);
      MendLeft(head, parent, tmp, k, t);
      k', t' := k.up, MendedLeft(WithSide(k, FarRight(s)), t);
      parent', elm', broke := parent, head.root, true;
    }
  }

  /** One round of RB_REMOVE_COLOR for a left child; the flag says whether the loop breaks. */
  method RoundLeft(head: Head, parent: Node, elm: Node?, ghost k: Ctx, ghost t: Tree)
    returns (parent': Node?, elm': Node?, broke: bool, ghost k': Ctx, ghost t': Tree)
    requires Shows(head, Plug(k, t)) && Short(k, t) && Col(t) == Black
    requires k.L? && k.n == parent && Root(t) == elm
    modifies head`root, Nodes(Plug(k, t))`left, Nodes(Plug(k, t))`right
    modifies Nodes(Plug(k, t))`parent, Nodes(Plug(k, t))`color
    ensures Shows(head, Plug(k', t')) && SameOrder(Plug(k, t), Plug(k', t'))
    ensures broke ==> Rules(k', t') && elm' == head.root
    ensures !broke ==>
      && Short(k', t') && elm' == Root(t') && parent' == CParent(k')
      && Rounds(k', t') < Rounds(k, t)
  {
    SiblingExists(k, t);
    Look(head, k, t);
    FreedLeftRules(k, t);
    FreedLeftOrder(k, t);
    var tmp := FreeLeft(head, parent, parent.right, k, t);
    parent', elm', broke, k', t' := SettleLeft(head, parent, tmp, FreedLeft(k), t);
  }

  // ---------- the focus is a right child ----------

  /** The path to the focus once a red sibling has been rotated away. */
  ghost function FreedRight(k: Ctx): Ctx
    requires k.R? && k.l.T?
  {
    if k.l.c == Red then R(k.l.r, k.n, Red, R(k.l.l, k.l.n, Black, k.up)) else k
  }

  lemma FreedRightRules(k: Ctx, t: Tree)
    requires Short(k, t) && k.R? && k.l.T?
    ensures var f := FreedRight(k);
            && Short(f, t) && f.l.T? && f.l.c == Black
            && (f == k || (f.c == Red && Depth(f) == Depth(k) + 1))
  {
  }

  lemma FreedRightOrder(k: Ctx, t: Tree)
    requires k.R? && k.l.T?
    ensures SameOrder(Plug(k, t), Plug(FreedRight(k), t))
  {
    if k.l.c == Red {
      var pt := T(k.l.(c := Black), k.n, Red, t);
      RotationOrder(pt);
      SameOrderPlug(k.up, Hang(k, t), RotatedRight(pt));
    }
  }

  method FreeRight(head: Head, parent: Node, sibling: Node, ghost k: Ctx, ghost t: Tree) returns (tmp: Node)
    requires Shows(head, Plug(k, t)) && Short(k, t) && k.R? && k.n == parent && k.l.T? && k.l.n == sibling
    modifies head`root, Nodes(Plug(k, t))`left, Nodes(Plug(k, t))`right
    modifies Nodes(Plug(k, t))`parent, Nodes(Plug(k, t))`color
    ensures Shows(head, Plug(FreedRight(k), t)) && FreedRight(k).l.T? && tmp == FreedRight(k).l.n
  {
    tmp := sibling;
    Look(head, k, t);
    FreedRightRules(k, t);
    if tmp.color == Red {
      SetSideColor(head, tmp, Black, k, t);
      ghost var k1 := WithSide(k, k.l.(c := Black));
      SetParentColor(head, parent, Red, k1, t);
      tmp := RotateRight(head, parent, k.up, T(k.l.(c := Black), k.n, Red, t));
      Look(head, FreedRight(k), t);
      tmp := parent.left;
    }
  }

  /** The sibling with its red child brought to the far side. */
  ghost function FarLeft(s: Tree): Tree
    requires s.T? && !(Col(s.l) == Black && Col(s.r) == Black)
  {
    if Col(s.l) == Black then RotatedLeft(T(s.l, s.n, Red, s.r.(c := Black))) else s
  }

  lemma FarLeftRules(s: Tree)
    requires s.T? && s.c == Black && Balanced(s) && NoRedRed(s) && !(Col(s.l) == Black && Col(s.r) == Black)
    ensures var f := FarLeft(s);
            && f.T? && f.c == Black && Balanced(f) && BH(f) == BH(s)
            && NoRedRed(f) && Col(f.l) == Red
            && SameOrder(s, f)
  {
    if Col(s.l) == Black {
      var r := s.r;
      assert Balanced(r) && Balanced(s.l) && Balanced(r.l) && Balanced(r.r) && BH(r.l) == BH(r.r) == BH(s.l);
      assert NoRedRed(r) && NoRedRed(s.l) && NoRedRed(r.l) && NoRedRed(r.r);
      RotationOrder(T(s.l, s.n, Red, r.(c := Black)));
      assert SameOrder(r, r.(c := Black));
    }
  }

  /** The subtree of the parent after the last case: the missing black node is back. */
  ghost function MendedRight(k: Ctx, t: Tree): Tree
    requires k.R? && k.l.T? && Col(k.l.l) == Red
  {
    T(k.l.l.(c := Black), k.l.n, k.c, T(k.l.r, k.n, Black, t))
  }

  lemma MendedRightRules(k: Ctx, t: Tree)
    requires Short(k, t) && Col(t) == Black && k.R? && k.l.T? && k.l.c == Black && Col(k.l.l) == Red
    ensures Rules(k.up, MendedRight(k, t)) && SameOrder(Plug(k, t), Plug(k.up, MendedRight(k, t)))
  {
    var s, m := k.l, MendedRight(k, t);
    assert Balanced(s.l) && Balanced(s.r) && NoRedRed(s.l) && NoRedRed(s.r);
    assert Balanced(m.r) && Balanced(m.l) && BH(m.r) == BH(m.l) == BH(t) + 1;
    assert NoRedRed(m.r) && NoRedRed(m.l);
    var pt := T(T(s.l.(c := Black), s.n, k.c, s.r), k.n, Black, t);
    RotationOrder(pt);
    assert SameOrder(s.l, s.l.(c := Black));
    assert SameOrder(s, pt.l);
    assert SameOrder(Hang(k, t), pt);
    SameOrderPlug(k.up, Hang(k, t), m);
  }

  /** The last case of the loop: at most two rotations end the repair. */
  method MendRight(head: Head, parent: Node, sibling: Node, ghost k: Ctx, ghost t: Tree)
    requires Shows(head, Plug(k, t)) && Short(k, t) && Col(t) == Black
    requires k.R? && k.n == parent && k.l.T? && k.l.n == sibling && k.l.c == Black
    requires !(Col(k.l.l) == Black && Col(k.l.r) == Black)
    modifies head`root, Nodes(Plug(k, t))`left, Nodes(Plug(k, t))`right
    modifies Nodes(Plug(k, t))`parent, Nodes(Plug(k, t))`color
    ensures Shows(head, Plug(k.up, MendedRight(WithSide(k, FarLeft(k.l)), t)))
  {
    var tmp := sibling;
    ghost var s := k.l;
    ghost var side := AtSide(k, t);
    Look(head, side, s);
    Look(head, L(side, s.n, s.c, s.r), s.l);
    Look(head, R(s.l, s.n, s.c, side), s.r);
    if tmp.left == null || tmp.left.color == Black {
      var oright := tmp.right;
      if oright != null {
        SetSideColor(head, oright, Black, L(side, s.n, s.c, s.r), s.l);
        s := s.(r := s.r.(c := Black));
      }
      SetColor(head, tmp, Red, side, s);
      s := s.(c := Red);
      oright := RotateLeft(head, tmp, side, s);
      s := RotatedLeft(s);
      Look(head, WithSide(k, s), t);
      tmp := parent.left;
    }
    assert s == FarLeft(k.l);
    Look(head, WithSide(k, s), t);
    SetColor(head, tmp, parent.color, side, s);
    s := s.(c := k.c);
    SetParentColor(head, parent, Black, WithSide(k, s), t);
    ghost var kb := Painted(WithSide(k, s), Black);
    side := AtSide(kb, t);
    Look(head, side, s);
    if tmp.left != null {
      SetSideColor(head, tmp.left, Black, R(s.l, s.n, s.c, side), s.r);
      s := s.(l := s.l.(c := Black));
    }
    tmp := RotateRight(head, parent, k.up, T(s, k.n, Black, t));
  }

  /** Both steps of the last case, on the image. */
  lemma SettledRight(k: Ctx, t: Tree)
    requires Short(k, t) && Col(t) == Black && k.R? && k.l.T? && k.l.c == Black
    requires !(Col(k.l.l) == Black && Col(k.l.r) == Black)
    ensures Col(FarLeft(k.l).l) == Red && FarLeft(k.l).T?
    ensures var t' := MendedRight(WithSide(k, FarLeft(k.l)), t);
            Rules(k.up, t') && SameOrder(Plug(k, t), Plug(k.up, t'))
  {
    var s := k.l;
    FarLeftRules(s);
    var g := WithSide(k, FarLeft(s));
    assert Short(g, t);
    SameOrderPlug(AtSide(k, t), s, FarLeft(s));
    MendedRightRules(g, t);
  }

  /** The sibling is black: the parent becomes the short one, or the repair ends. */
  method SettleRight(head: Head, parent: Node, tmp: Node, ghost k: Ctx, ghost t: Tree)
    returns (parent': Node?, elm': Node?, broke: bool, ghost k': Ctx, ghost t': Tree)
    requires Shows(head, Plug(k, t)) && Short(k, t) && Col(t) == Black
    requires k.R? && k.n == parent && k.l.T? && k.l.n == tmp && k.l.c == Black
    modifies head`root, Nodes(Plug(k, t))`left, Nodes(Plug(k, t))`right
    modifies Nodes(Plug(k, t))`parent, Nodes(Plug(k, t))`color
    ensures Shows(head, Plug(k', t')) && SameOrder(Plug(k, t), Plug(k', t'))
    ensures broke ==> Rules(k', t') && elm' == head.root
    ensures !broke ==>
      && Short(k', t') && elm' == Root(t') && parent' == CParent(k')
      && Rounds(k', t') <= (if k.c == Red then 0 else Depth(k))
  {
    ghost var s := k.l;
    ghost var side := AtSide(k, t);
    Look(head, side, s);
    Look(head, L(side, s.n, s.c, s.r), s.l);
    Look(head, R(s.l, s.n, s.c, side), s.r);
    if (tmp.left == null || tmp.left.color == Black) && (tmp.right == null || tmp.right.color == Black) {
      SetSideColor(head, tmp, Red, k, t);
      k', t' := k.up, Hang(WithSide(k, s.(c := Red)), t);
      Look(head, k', t');
      BothBlackRules(k, t);
      elm', parent', broke := parent, parent.parent, false;
    } else {
      SettledRight(k, t);
      MendRight(head, parent, tmp, k, t);
      k', t' := k.up, MendedRight(WithSide(k, FarLeft(s)), t);
      parent', elm', broke := parent, head.root, true;
    }
  }

  /** One round of RB_REMOVE_COLOR for a right child; the flag says whether the loop breaks. */
  method RoundRight(head: Head, parent: Node, elm: Node?, ghost k: Ctx, ghost t: Tree)
    returns (parent': Node?, elm': Node?, broke: bool, ghost k': Ctx, ghost t': Tree)
    requires Shows(head, Plug(k, t)) && Short(k, t) && Col(t) == Black
    requires k.R? && k.n == parent && Root(t) == elm
    modifies head`root, Nodes(Plug(k, t))`left, Nodes(Plug(k, t))`right
    modifies Nodes(Plug(k, t))`parent, Nodes(Plug(k, t))`color
    ensures Shows(head, Plug(k', t')) && SameOrder(Plug(k, t), Plug(k', t'))
    ensures broke ==> Rules(k', t') && elm' == head.root
    ensures !broke ==>
      && Short(k', t') && elm' == Root(t') && parent' == CParent(k')
      && Rounds(k', t') < Rounds(k, t)
  {
    SiblingExists(k, t);
    Look(head, k, t);
    FreedRightRules(k, t);
    FreedRightOrder(k, t);
    var tmp := FreeRight(head, parent, parent.left, k, t);
    parent', elm', broke, k', t' := SettleRight(head, parent, tmp, FreedRight(k), t);
  }

  // ---------- the whole repair ----------

  /** One round on either side; a tree in which the loop breaks is looked at as a whole. */
  method Round(head: Head, parent: Node, elm: Node?, ghost k: Ctx, ghost t: Tree)
    returns (parent': Node?, elm': Node?, broke: bool, ghost k': Ctx, ghost t': Tree)
    requires Shows(head, Plug(k, t)) && Short(k, t) && Col(t) == Black
    requires !k.Top? && k.n == parent && Root(t) == elm
    modifies head`root, Nodes(Plug(k, t))`left, Nodes(Plug(k, t))`right
    modifies Nodes(Plug(k, t))`parent, Nodes(Plug(k, t))`color
    ensures Shows(head, Plug(k', t')) && SameOrder(Plug(k, t), Plug(k', t'))
    ensures broke ==> k'.Top? && RedBlack(t') && elm' == head.root
    ensures !broke ==>
      && Short(k', t') && elm' == Root(t') && parent' == CParent(k')
      && Rounds(k', t') < Rounds(k, t)
  {
    SiblingExists(k, t);
    Look(head, k, t);
    if parent.left == elm {
      parent', elm', broke, k', t' := RoundLeft(head, parent, elm, k, t);
    } else {
      parent', elm', broke, k', t' := RoundRight(head, parent, elm, k, t);
    }
    if broke {
      RulesPlug(k', t');
      k', t' := Top, Plug(k', t');
    }
  }

  /** RB_REMOVE_COLOR: climbs until a red node or the root takes the missing black. */
  method RemoveColor(head: Head, parent0: Node?, elm0: Node?, ghost k0: Ctx, ghost t0: Tree)
    returns (ghost tree: Tree)
    requires Shows(head, Plug(k0, t0)) && Short(k0, t0)
    requires Root(t0) == elm0 && CParent(k0) == parent0
    modifies head`root, Nodes(Plug(k0, t0))`left, Nodes(Plug(k0, t0))`right
    modifies Nodes(Plug(k0, t0))`parent, Nodes(Plug(k0, t0))`color
    ensures Shows(head, tree) && RedBlack(tree) && SameOrder(Plug(k0, t0), tree)
  {
    var parent, elm := parent0, elm0;
    ghost var k, t := k0, t0;
    Look(head, k, t);
    var broke := false;
    while (elm == null || elm.color == Black) && elm != head.root
      invariant Shows(head, Plug(k, t)) && SameOrder(Plug(k0, t0), Plug(k, t))
      invariant Short(k, t) && CParent(k) == parent && head.root == TopNode(k, elm)
      invariant Root(t) == elm && (elm != null ==> elm.color == Col(t))
      decreases Rounds(k, t)
    {
      parent, elm, broke, k, t := Round(head, parent, elm, k, t);
      if broke {
        break;
      }
      Look(head, k, t);
    }
    if elm == head.root {
      AtRootIsTop(head, k, t);
    }
    BlackenedRules(k, t);
    Look(head, k, t);
    if elm != null {
      SetColor(head, elm, Black, k, t);
    }
    tree := Plug(k, Blackened(t));
  }

  /** Blackening the focus ends the repair: it was red, or it is the root, or nothing is missing. */
  lemma BlackenedRules(k: Ctx, t: Tree)
    requires (Short(k, t) && (Col(t) == Red || k.Top?)) || (k.Top? && RedBlack(t))
    ensures RedBlack(Plug(k, Blackened(t))) && SameOrder(Plug(k, t), Plug(k, Blackened(t)))
  {
    assert Rules(k, Blackened(t));
    RulesPlug(k, Blackened(t));
    SameOrderPlug(k, t, Blackened(t));
  }

  /** The focus that stands at the root is the whole tree. */
  lemma AtRootIsTop(head: Head, k: Ctx, t: Tree)
    requires Shows(head, Plug(k, t)) && head.root == Root(t)
    ensures k.Top?
  {
    AtPlug(Snap(Nodes(Plug(k, t))), head.root, k, t);
    if !k.Top? {
      TopNodeAbove(k, Root(t));
    }
  }

  lemma {:induction false} TopNodeAbove(k: Ctx, hole: Node?)
    requires !k.Top?
    ensures TopNode(k, hole) != null && TopNode(k, hole) in CNodes(k)
    decreases k
  {
    if k.up.Top? {
    } else {
      TopNodeAbove(k.up, k.n);
    }
  }

  // ---------- removal ----------

  /** The path to a node of the tree. */
  lemma {:induction false} Focus(k0: Ctx, t0: Tree, n: Node) returns (k: Ctx, t: Tree)
    requires n in Nodes(t0)
    ensures Plug(k, t) == Plug(k0, t0) && t.T? && t.n == n
    decreases t0
  {
    if n == t0.n {
      k, t := k0, t0;
    } else if n in Nodes(t0.l) {
      k, t := Focus(L(k0, t0.n, t0.c, t0.r), t0.l, n);
    } else {
      k, t := Focus(R(t0.l, t0.n, t0.c, k0), t0.r, n);
    }
  }

  /** Only left turns, all the way up. */
  ghost predicate LeftSpine(k: Ctx) {
    !k.Top? ==> k.L? && LeftSpine(k.up)
  }

  /** Taking out a node with at most one child leaves a shortage exactly when it was black. */
  lemma HeirRules(k: Ctx, t: Tree)
    requires Rules(k, t) && t.T? && (t.l.E? || t.r.E?)
    ensures t.c == Black ==> Short(k, Heir(t))
    ensures t.c == Red ==> Rules(k, Heir(t))
  {
    assert BH(t.l) == 0 && BH(t.r) == 0 && NoRedRed(Heir(t));
  }

  lemma Regroup(b: seq<Node>, l: seq<Node>, m: seq<Node>, r: seq<Node>, a: seq<Node>)
    ensures b + (l + m + r) + a == (b + l) + m + (r + a)
  {
  }

  lemma RegroupRight(b: seq<Node>, l: seq<Node>, m: seq<Node>, r: seq<Node>, a: seq<Node>)
    ensures b + (l + m + r) + a == (b + l) + ((m + r) + a)
  {
  }

  lemma HeirOrder(k: Ctx, t: Tree)
    requires t.T? && (t.l.E? || t.r.E?)
    ensures InOrder(Plug(k, Heir(t))) == (Before(k) + InOrder(t.l)) + (InOrder(t.r) + After(k))
  {
    PlugOrder(k, Heir(t));
    Regroup(Before(k), InOrder(t.l), [], InOrder(t.r), After(k));
    assert InOrder(Heir(t)) == InOrder(t.l) + [] + InOrder(t.r);
  }

  lemma SortedWithout(before: seq<Node>, n: Node, after: seq<Node>)
    requires Sorted(before + [n] + after)
    ensures Sorted(before + after)
  {
    var s, s' := before + [n] + after, before + after;
    forall i, j | 0 <= i < j < |s'| ensures Less(s'[i].pathname, s'[j].pathname) {
      assert s'[i] == s[if i < |before| then i else i + 1];
      assert s'[j] == s[if j < |before| then j else j + 1];
    }
  }

  /** The label `color` of RB_REMOVE: a black node taken out is made up for. */
  method Repair(head: Head, color: Color, parent: Node?, child: Node?, ghost k: Ctx, ghost t: Tree)
    returns (ghost tree: Tree)
    requires Shows(head, Plug(k, t)) && Root(t) == child && CParent(k) == parent
    requires color == Black ==> Short(k, t)
    requires color == Red ==> Rules(k, t)
    modifies head`root, Nodes(Plug(k, t))`left, Nodes(Plug(k, t))`right
    modifies Nodes(Plug(k, t))`parent, Nodes(Plug(k, t))`color
    ensures Shows(head, tree) && RedBlack(tree) && SameOrder(Plug(k, t), tree)
  {
    tree := Plug(k, t);
    if color == Black {
      tree := RemoveColor(head, parent, child, k, t);
    } else {
      RulesPlug(k, t);
    }
  }

  /** The node has at most one child, which takes its place. */
  method RemoveOne(head: Head, elm: Node, child: Node?, ghost k: Ctx, ghost t: Tree) returns (ghost tree: Tree)
    requires Shows(head, Plug(k, t)) && Rules(k, t)
    requires t.T? && t.n == elm && (t.l.E? || t.r.E?) && child == Root(Heir(t))
    modifies head`root, Nodes(Plug(k, t))`left, Nodes(Plug(k, t))`right
    modifies Nodes(Plug(k, t))`parent, Nodes(Plug(k, t))`color
    ensures Shows(head, tree) && RedBlack(tree) && SameOrder(Plug(k, Heir(t)), tree)
  {
    HeirRules(k, t);
    Look(head, k, t);
    PlugNodes(k, t);
    assert Heir(t).T? ==> Root(Heir(t)) in Nodes(Heir(t));
    var parent, color := elm.parent, elm.color;
    Unlink(head, elm, child, parent, k, t);
    tree := Repair(head, color, parent, child, k, Heir(t));
  }

  /** The successor: the leftmost node of the right subtree, and the path down to it. */
  method Leftmost(head: Head, from: Node, ghost outer: Ctx, ghost t: Tree)
    returns (elm: Node, ghost inner: Ctx, ghost s: Tree)
    requires Shows(head, Plug(outer, t)) && t.T? && t.n == from
    ensures InOrder(t) != [] && InOrder(t)[0] == elm
    ensures Plug(inner, s) == t && LeftSpine(inner) && s.T? && s.n == elm && s.l.E?
  {
    elm := from;
    inner, s := Top, t;
    NodesExist(Plug(outer, t));
    PlugCompose(inner, outer, s);
    Look(head, Compose(inner, outer), s);
    while elm.left != null
      invariant Plug(inner, s) == t && LeftSpine(inner) && s.T? && s.n == elm
      invariant elm.left == Root(s.l)
      decreases s
    {
      elm := elm.left;
      inner, s := L(inner, s.n, s.c, s.r), s.l;
      PlugCompose(inner, outer, s);
      Look(head, Compose(inner, outer), s);
    }
    LeftmostFirst(inner, s);
  }

  /** The leftmost node is the first; without it the rest of the subtree follows. */
  lemma LeftmostFirst(inner: Ctx, s: Tree)
    requires LeftSpine(inner) && s.T? && s.l.E?
    ensures InOrder(Plug(inner, s)) == [s.n] + InOrder(Plug(inner, s.r))
  {
    PlugOrder(inner, s);
    PlugOrder(inner, s.r);
    SpineStartsHere(inner);
    FirstInMiddle(s.n, InOrder(s.r), After(inner));
  }

  lemma FirstInMiddle(n: Node, r: seq<Node>, a: seq<Node>)
    ensures [] + ([] + [n] + r) + a == [n] + ([] + r + a)
  {
  }

  /** The order with the successor in the place of the removed node. */
  lemma SuccessorOrder(k: Ctx, t: Tree, inner: Ctx, s: Tree)
    requires t.T? && Plug(inner, s) == t.r && LeftSpine(inner) && s.T? && s.l.E?
    ensures InOrder(Plug(k, T(t.l, s.n, t.c, Plug(inner, s.r)))) ==
            (Before(k) + InOrder(t.l)) + (InOrder(t.r) + After(k))
  {
    LeftmostFirst(inner, s);
    var r' := InOrder(Plug(inner, s.r));
    PlugOrder(k, T(t.l, s.n, t.c, Plug(inner, s.r)));
    RegroupRight(Before(k), InOrder(t.l), [s.n], r', After(k));
  }

  lemma {:induction false} SpineStartsHere(k: Ctx)
    requires LeftSpine(k)
    ensures Before(k) == []
  {
    if k.Top? {
    } else {
      SpineStartsHere(k.up);
    }
  }

  /** The path to the successor obeys the rules, whichever node stands in the removed one's place. */
  lemma SuccessorPath(k: Ctx, t: Tree, inner: Ctx, s: Tree, h: nat)
    requires Rules(k, t) && t.T? && Plug(inner, s) == t.r
    ensures var d, d' := Compose(inner, R(t.l, t.n, t.c, k)), Compose(inner, R(t.l, s.n, t.c, k));
            && Rules(d, s)
            && (CBalanced(d, h) <==> CBalanced(d', h))
            && (CNoRedRed(d) <==> CNoRedRed(d'))
            && CCol(d) == CCol(d')
    requires s.T?
  {
    assert Rules(R(t.l, t.n, t.c, k), t.r);
    RulesCompose(inner, R(t.l, t.n, t.c, k), s);
    FrameNodeIrrelevant(inner, t.l, t.n, s.n, t.c, k, h);
  }

  /** The hole the successor leaves, seen with the successor already in the removed node's place. */
  lemma SuccessorRules(k: Ctx, t: Tree, inner: Ctx, s: Tree)
    requires Rules(k, t) && t.T? && Plug(inner, s) == t.r && s.T? && s.l.E?
    ensures var d := Compose(inner, R(t.l, s.n, t.c, k));
            && (s.c == Black ==> Short(d, s.r))
            && (s.c == Red ==> Rules(d, s.r))
  {
    var d := Compose(inner, R(t.l, t.n, t.c, k));
    SuccessorPath(k, t, inner, s, BH(s.r) + Weight(s.c));
    HeirRules(d, s);
  }

  /** The successor is found and unlinked; `parent` is who holds its child in the end. */
  method Detach(head: Head, was: Node, ghost k: Ctx, ghost t: Tree)
    returns (elm: Node, child: Node?, parent: Node?, color: Color, ghost inner: Ctx, ghost s: Tree)
    requires Shows(head, Plug(k, t)) && t.T? && t.n == was && t.r.T?
    modifies head`root, Nodes(Plug(k, t))`left, Nodes(Plug(k, t))`right, Nodes(Plug(k, t))`parent
    ensures Plug(inner, s) == t.r && LeftSpine(inner) && s.T? && s.l.E? && s.n == elm
    ensures child == Root(s.r) && color == s.c
    ensures parent == CParent(Compose(inner, R(t.l, elm, t.c, k)))
    ensures var rest := Plug(k, T(t.l, was, t.c, Plug(inner, s.r)));
            Shows(head, rest) && Nodes(rest) == Nodes(Plug(k, t)) - {elm}
    ensures elm in Nodes(Plug(k, t))
  {
    Look(head, k, t);
    FocusDistinct(head, k, t);
    NodesExist(Plug(k, t));
    ghost var outer := R(t.l, was, t.c, k);
    elm, inner, s := Leftmost(head, was.right, outer, t.r);
    ghost var d := Compose(inner, outer);
    PlugCompose(inner, outer, s);
    PlugCompose(inner, outer, s.r);
    PlugNodes(inner, s);
    assert !inner.Top? ==> inner.n in CNodes(inner) && inner.n != was;
    Look(head, d, s);
    child, parent, color := elm.right, elm.parent, elm.color;
    ChildListed(head, d, s);
    Unlink(head, elm, child, parent, d, s);
    if elm.parent == was {
      parent := elm;
    }
  }

  lemma ChildListed(head: Head, k: Ctx, t: Tree)
    requires Shows(head, Plug(k, t)) && t.T?
    ensures t.r.T? ==> t.r.n in Nodes(Plug(k, t)) && t.r.n != t.n
  {
    PlugNodes(k, t);
    FocusDistinct(head, k, t);
    assert t.r.T? ==> t.r.n in Nodes(t.r);
  }

  /** The unlinked successor stands in for the removed node; the tree is then seen from where its child hangs. */
  method TakePlace(head: Head, was: Node, elm: Node, ghost k: Ctx, ghost t: Tree, ghost inner: Ctx, ghost s: Tree)
    requires t.T? && t.l.T? && s.T? && s.n == elm
    requires Shows(head, Plug(k, T(t.l, was, t.c, Plug(inner, s.r))))
    requires elm !in Nodes(Plug(k, T(t.l, was, t.c, Plug(inner, s.r))))
    modifies head`root, elm`left, elm`right, elm`parent, elm`color
    modifies Nodes(Plug(k, T(t.l, was, t.c, Plug(inner, s.r))))`left
    modifies Nodes(Plug(k, T(t.l, was, t.c, Plug(inner, s.r))))`right
    modifies Nodes(Plug(k, T(t.l, was, t.c, Plug(inner, s.r))))`parent
    ensures var d := Compose(inner, R(t.l, elm, t.c, k));
            && Plug(d, s.r) == Plug(k, T(t.l, elm, t.c, Plug(inner, s.r))) && Shows(head, Plug(d, s.r))
            && Nodes(Plug(d, s.r)) == Nodes(Plug(k, T(t.l, was, t.c, Plug(inner, s.r)))) - {was} + {elm}
  {
    Replace(head, was, elm, k, T(t.l, was, t.c, Plug(inner, s.r)));
    PlugCompose(inner, R(t.l, elm, t.c, k), s.r);
  }

  /** Two children: the successor is unlinked, then takes over the removed node's place. */
  method RemoveTwo(head: Head, was: Node, ghost k: Ctx, ghost t: Tree)
    returns (ghost tree: Tree, ghost inner: Ctx, ghost s: Tree)
    requires Shows(head, Plug(k, t)) && Rules(k, t)
    requires t.T? && t.n == was && t.l.T? && t.r.T?
    modifies head`root, Nodes(Plug(k, t))`left, Nodes(Plug(k, t))`right
    modifies Nodes(Plug(k, t))`parent, Nodes(Plug(k, t))`color
    ensures Shows(head, tree) && RedBlack(tree)
    ensures Plug(inner, s) == t.r && LeftSpine(inner) && s.T? && s.l.E?
    ensures SameOrder(Plug(k, T(t.l, s.n, t.c, Plug(inner, s.r))), tree)
  {
    var elm, child, parent, color;
    elm, child, parent, color, inner, s := Detach(head, was, k, t);
    SuccessorRules(k, t, inner, s);
    TakePlace(head, was, elm, k, t, inner, s);
    tree := Repair(head, color, parent, child, Compose(inner, R(t.l, elm, t.c, k)), s.r);
  }

  /** The node at the focus leaves the tree. */
  method RemoveAt(head: Head, elm: Node, ghost k: Ctx, ghost t: Tree) returns (ghost tree: Tree)
    requires Shows(head, Plug(k, t)) && Rules(k, t) && t.T? && t.n == elm
    modifies head`root, Nodes(Plug(k, t))`left, Nodes(Plug(k, t))`right
    modifies Nodes(Plug(k, t))`parent, Nodes(Plug(k, t))`color
    ensures Shows(head, tree) && RedBlack(tree)
    ensures InOrder(tree) == (Before(k) + InOrder(t.l)) + (InOrder(t.r) + After(k))
  {
    Look(head, k, t);
    if elm.left == null {
      HeirOrder(k, t);
      tree := RemoveOne(head, elm, elm.right, k, t);
    } else if elm.right == null {
      HeirOrder(k, t);
      tree := RemoveOne(head, elm, elm.left, k, t);
    } else {
      ghost var inner, s;
      tree, inner, s := RemoveTwo(head, elm, k, t);
      SuccessorOrder(k, t, inner, s);
    }
  }

  /** RB_REMOVE: the node leaves its tree; every other node stays, in the same order. */
  method Remove(head: Head, elm: Node) returns (was: Node, ghost before: seq<Node>, ghost after: seq<Node>)
    requires head.Valid() && elm in Nodes(head.tree)
    modifies head, Nodes(head.tree)`left, Nodes(head.tree)`right
    modifies Nodes(head.tree)`parent, Nodes(head.tree)`color
    ensures head.Valid() && was == elm
    ensures InOrder(old(head.tree)) == before + [elm] + after
    ensures InOrder(head.tree) == before + after
  {
    was := elm;
    ghost var k, t := Focus(Top, head.tree, elm);
    RulesPlug(k, t);
    RemovedOrder(k, t);
    before, after := Before(k) + InOrder(t.l), InOrder(t.r) + After(k);
    head.tree := RemoveAt(head, elm, k, t);
  }

  lemma RemovedOrder(k: Ctx, t: Tree)
    requires t.T? && Sorted(InOrder(Plug(k, t)))
    ensures var before, after := Before(k) + InOrder(t.l), InOrder(t.r) + After(k);
            && InOrder(Plug(k, t)) == before + [t.n] + after
            && Sorted(before + after)
  {
    PlugOrder(k, t);
    Regroup(Before(k), InOrder(t.l), [t.n], InOrder(t.r), After(k));
    SortedWithout(Before(k) + InOrder(t.l), t.n, InOrder(t.r) + After(k));
  }
}
