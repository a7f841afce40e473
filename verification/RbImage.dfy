/**
 The nodes of the red-black tree, and the ghost images the proofs follow: a tree as a value,
 and a zipper (the path from a node up to the root) for the loops that climb and rotate.
 */
module RbImage {
  import opened CString
  import opened Bits

  datatype Color = Black | Red

  /** A mapped file and, embedded in it, its tree links. */
  class Node {
    const pathname: CStr
    var baseAddr: nat
    var left: Node?
    var right: Node?
    var parent: Node?
    var color: Color

    constructor (pathname: CStr, baseAddr: nat)
      ensures this.pathname == pathname && this.baseAddr == baseAddr
    {
      this.pathname, this.baseAddr := pathname, baseAddr;
      left, right, parent, color := null, null, null, Black;
    }
  }

  /** The image of a subtree: who is where, in which colour. */
  datatype Tree = E | T(l: Tree, n: Node, c: Color, r: Tree)

  /** What surrounds a subtree: `L` when it hangs left of `n`, `R` when it hangs right. */
  datatype Ctx = Top | L(up: Ctx, n: Node, c: Color, r: Tree) | R(l: Tree, n: Node, c: Color, up: Ctx)

  ghost function Root(t: Tree): Node? {
    if t.E? then null else t.n
  }

  ghost function Nodes(t: Tree): set<Node> {
    if t.E? then {} else Nodes(t.l) + {t.n} + Nodes(t.r)
  }

  ghost function InOrder(t: Tree): seq<Node> {
    if t.E? then [] else InOrder(t.l) + [t.n] + InOrder(t.r)
  }

  ghost predicate Distinct(t: Tree) {
    t.T? ==>
      && Distinct(t.l) && Distinct(t.r)
      && Nodes(t.l) !! Nodes(t.r) && t.n !in Nodes(t.l) && t.n !in Nodes(t.r)
  }

  /** What one node's fields hold, and the fields of many nodes. */
  datatype Links = Links(left: Node?, right: Node?, parent: Node?, color: Color)

  type Mem = map<Node, Links>

  ghost function Snap(nodes: set<Node>): Mem
    reads nodes
  {
    map n | n in nodes :: Links(n.left, n.right, n.parent, n.color)
  }

  /** Every node of `t` holds exactly the links and the colour the image gives it. */
  ghost predicate Linked(m: Mem, t: Tree, parent: Node?) {
    t.T? ==>
      && t.n in m && m[t.n] == Links(Root(t.l), Root(t.r), parent, t.c)
      && Linked(m, t.l, t.n) && Linked(m, t.r, t.n)
  }

  ghost function CParent(k: Ctx): Node? {
    if k.Top? then null else k.n
  }

  ghost function Side(k: Ctx): Tree
    requires !k.Top?
  {
    if k.L? then k.r else k.l
  }

  ghost function CNodes(k: Ctx): set<Node> {
    if k.Top? then {} else CNodes(k.up) + {k.n} + Nodes(Side(k))
  }

  ghost predicate CDistinct(k: Ctx) {
    !k.Top? ==>
      && CDistinct(k.up) && Distinct(Side(k))
      && CNodes(k.up) !! Nodes(Side(k)) && k.n !in CNodes(k.up) && k.n !in Nodes(Side(k))
  }

  ghost predicate CLinked(m: Mem, k: Ctx, hole: Node?) {
    !k.Top? ==>
      && k.n in m && m[k.n] == Frame(k, hole)
      && Linked(m, Side(k), k.n) && CLinked(m, k.up, k.n)
  }

  /** The fields of the node at the end of a path. */
  ghost function Frame(k: Ctx, hole: Node?): Links
    requires !k.Top?
  {
    Links(if k.L? then hole else Root(k.l), if k.L? then Root(k.r) else hole, CParent(k.up), k.c)
  }

  ghost predicate Agree(m: Mem, m': Mem, nodes: set<Node>) {
    forall n :: n in nodes && n in m ==> n in m' && m'[n] == m[n]
  }

  lemma {:induction false} LinkedFrame(m: Mem, m': Mem, t: Tree, parent: Node?)
    requires Linked(m, t, parent) && Agree(m, m', Nodes(t))
    ensures Linked(m', t, parent)
  {
    if t.E? {
    } else {
      LinkedFrame(m, m', t.l, t.n);
      LinkedFrame(m, m', t.r, t.n);
    }
  }

  lemma {:induction false} CLinkedFrame(m: Mem, m': Mem, k: Ctx, hole: Node?)
    requires CLinked(m, k, hole) && Agree(m, m', CNodes(k))
    ensures CLinked(m', k, hole)
  {
    if k.Top? {
    } else {
      LinkedFrame(m, m', Side(k), k.n);
      CLinkedFrame(m, m', k.up, k.n);
    }
  }

  /** The subtree moves under another parent: only its root's parent link changes. */
  lemma LinkedAdopted(m: Mem, m': Mem, t: Tree, was: Node?, now: Node?)
    requires Linked(m, t, was) && Distinct(t) && Agree(m, m', Nodes(t) - {Root(t)})
    requires t.T? ==> t.n in m' && m'[t.n] == m[t.n].(parent := now)
    ensures Linked(m', t, now)
  {
    if t.T? {
      LinkedFrame(m, m', t.l, t.n);
      LinkedFrame(m, m', t.r, t.n);
    }
  }

  /** The hole at the end of a path is filled otherwise. */
  lemma CLinkedRelinked(m: Mem, m': Mem, k: Ctx, was: Node?, now: Node?)
    requires CLinked(m, k, was) && CDistinct(k) && Agree(m, m', CNodes(k) - {CParent(k)})
    requires !k.Top? ==> k.n in m' && m'[k.n] == Frame(k, now)
    ensures CLinked(m', k, now)
  {
    if !k.Top? {
      LinkedFrame(m, m', Side(k), k.n);
      CLinkedFrame(m, m', k.up, k.n);
    }
  }

  /** The node at the top of the whole tree when `hole` stands at the focus. */
  ghost function TopNode(k: Ctx, hole: Node?): Node? {
    if k.Top? then hole else TopNode(k.up, k.n)
  }

  /** One step up: the subtree of the parent. */
  ghost function Hang(k: Ctx, t: Tree): Tree
    requires !k.Top?
  {
    if k.L? then T(t, k.n, k.c, k.r) else T(k.l, k.n, k.c, t)
  }

  ghost function Plug(k: Ctx, t: Tree): Tree {
    if k.Top? then t else Plug(k.up, Hang(k, t))
  }

  /** The path `inner`, continued by the path `outer`. */
  ghost function Compose(inner: Ctx, outer: Ctx): Ctx {
    match inner
    case Top => outer
    case L(up, n, c, r) => L(Compose(up, outer), n, c, r)
    case R(l, n, c, up) => R(l, n, c, Compose(up, outer))
  }

  // ---------- order of the nodes ----------

  ghost function Before(k: Ctx): seq<Node> {
    match k
    case Top => []
    case L(up, _, _, _) => Before(up)
    case R(l, n, _, up) => Before(up) + InOrder(l) + [n]
  }

  ghost function After(k: Ctx): seq<Node> {
    match k
    case Top => []
    case L(up, n, _, r) => [n] + InOrder(r) + After(up)
    case R(_, _, _, up) => After(up)
  }

  ghost function Depth(k: Ctx): nat {
    if k.Top? then 0 else 1 + Depth(k.up)
  }

  /** One step up moves a node and a sibling subtree into the focus and changes no order. */
  lemma HangOrder(k: Ctx, t: Tree)
    requires !k.Top?
    ensures Before(k) + InOrder(t) + After(k) == Before(k.up) + InOrder(Hang(k, t)) + After(k.up)
  {
    if k.L? {
      assert InOrder(Hang(k, t)) == InOrder(t) + [k.n] + InOrder(k.r);
    } else {
      assert InOrder(Hang(k, t)) == InOrder(k.l) + [k.n] + InOrder(t);
    }
  }

  lemma {:induction false} PlugOrder(k: Ctx, t: Tree)
    ensures InOrder(Plug(k, t)) == Before(k) + InOrder(t) + After(k)
    decreases k
  {
    if !k.Top? {
      PlugOrder(k.up, Hang(k, t));
      HangOrder(k, t);
    } else {
      assert Before(k) + InOrder(t) + After(k) == InOrder(t);
    }
  }

  lemma {:induction false} PlugNodes(k: Ctx, t: Tree)
    ensures Root(Plug(k, t)) == TopNode(k, Root(t))
    ensures Nodes(Plug(k, t)) == CNodes(k) + Nodes(t)
    decreases k
  {
    if k.Top? {
    } else {
      PlugNodes(k.up, Hang(k, t));
    }
  }

  /** The same nodes in the same order. */
  ghost predicate SameOrder(a: Tree, b: Tree) {
    InOrder(a) == InOrder(b) && Nodes(a) == Nodes(b)
  }

  /** Trees are in the same order when their parts are; colours do not matter. */
  lemma SameOrderParts(a: Tree, b: Tree)
    requires a.T? && b.T? && a.n == b.n && SameOrder(a.l, b.l) && SameOrder(a.r, b.r)
    ensures SameOrder(a, b)
  {
  }

  lemma SameOrderPlug(k: Ctx, a: Tree, b: Tree)
    requires SameOrder(a, b)
    ensures SameOrder(Plug(k, a), Plug(k, b))
  {
    PlugOrder(k, a);
    PlugOrder(k, b);
    PlugNodes(k, a);
    PlugNodes(k, b);
  }

  lemma {:induction false} NodesInOrder(t: Tree)
    ensures forall n :: n in Nodes(t) <==> n in InOrder(t)
    ensures Distinct(t) ==> |InOrder(t)| == |Nodes(t)|
  {
    if t.E? {
    } else {
      NodesInOrder(t.l);
      NodesInOrder(t.r);
      if Distinct(t) {
        assert |Nodes(t.l) + {t.n}| == |Nodes(t.l)| + 1;
        assert |Nodes(t.l) + {t.n} + Nodes(t.r)| == |Nodes(t.l) + {t.n}| + |Nodes(t.r)|;
      }
    }
  }

  lemma NodeIndex(t: Tree, n: Node) returns (i: nat)
    requires n in Nodes(t)
    ensures i < |InOrder(t)| && InOrder(t)[i] == n
  {
    NodesInOrder(t);
    i :| 0 <= i < |InOrder(t)| && InOrder(t)[i] == n;
  }

  lemma {:induction false} IndexNode(t: Tree, i: nat)
    requires i < |InOrder(t)|
    ensures InOrder(t)[i] in Nodes(t)
  {
    var l := |InOrder(t.l)|;
    if i < l {
      IndexNode(t.l, i);
    } else if i > l {
      IndexNode(t.r, i - l - 1);
    }
  }

  /** Strictly increasing path names. */
  ghost predicate Sorted(s: seq<Node>) {
    forall i, j :: 0 <= i < j < |s| ==> Less(s[i].pathname, s[j].pathname)
  }

  // ---------- colours and black heights ----------

  ghost function Col(t: Tree): Color {
    if t.E? then Black else t.c
  }

  /** Above the root there is no black node, so a red node is never at the top. */
  ghost function CCol(k: Ctx): Color {
    if k.Top? then Red else k.c
  }

  ghost function Weight(c: Color): nat {
    if c == Black then 1 else 0
  }

  /** Black nodes on the leftmost path; in a balanced tree, on every path. */
  ghost function BH(t: Tree): nat {
    if t.E? then 0 else BH(t.l) + Weight(t.c)
  }

  ghost predicate Balanced(t: Tree) {
    t.T? ==> Balanced(t.l) && Balanced(t.r) && BH(t.l) == BH(t.r)
  }

  ghost predicate NoRedRed(t: Tree) {
    t.T? ==>
      && NoRedRed(t.l) && NoRedRed(t.r)
      && (t.c == Red ==> Col(t.l) == Black && Col(t.r) == Black)
  }

  ghost predicate RedBlack(t: Tree) {
    Balanced(t) && NoRedRed(t) && Col(t) == Black
  }

  /** A subtree of black height `h` at the focus balances everything above it. */
  ghost predicate CBalanced(k: Ctx, h: nat) {
    !k.Top? ==>
      && Balanced(Side(k)) && BH(Side(k)) == h && CBalanced(k.up, h + Weight(k.c))
  }

  ghost predicate CNoRedRed(k: Ctx) {
    !k.Top? ==>
      && NoRedRed(Side(k)) && CNoRedRed(k.up)
      && (k.c == Red ==> Col(Side(k)) == Black && CCol(k.up) == Black)
  }

  /** All the rules hold at, below and above the focus. */
  ghost predicate Rules(k: Ctx, t: Tree) {
    && Balanced(t) && CBalanced(k, BH(t))
    && NoRedRed(t) && CNoRedRed(k)
    && (Col(t) == Red ==> CCol(k) == Black)
  }

  /** One step up keeps the rules, both ways. */
  lemma HangRules(k: Ctx, t: Tree)
    requires !k.Top?
    ensures Rules(k, t) <==> Rules(k.up, Hang(k, t))
  {
    assert BH(Hang(k, t)) == if k.L? then BH(t) + Weight(k.c) else BH(Side(k)) + Weight(k.c);
    assert Balanced(Hang(k, t)) <==> Balanced(t) && Balanced(Side(k)) && BH(t) == BH(Side(k));
  }

  lemma {:induction false} RulesCompose(inner: Ctx, outer: Ctx, t: Tree)
    ensures Rules(Compose(inner, outer), t) <==> Rules(outer, Plug(inner, t))
    decreases inner
  {
    if inner.Top? {
    } else {
      HangRules(Compose(inner, outer), t);
      RulesCompose(inner.up, outer, Hang(inner, t));
    }
  }

  lemma {:induction false} PlugCompose(inner: Ctx, outer: Ctx, t: Tree)
    ensures Plug(Compose(inner, outer), t) == Plug(outer, Plug(inner, t))
    decreases inner
  {
    if inner.Top? {
    } else {
      PlugCompose(inner.up, outer, Hang(inner, t));
    }
  }

  lemma {:induction false} ComposeTop(k: Ctx)
    ensures Compose(k, Top) == k
  {
    if k.Top? {
    } else {
      ComposeTop(k.up);
    }
  }

  /** The rules read off the focus are the rules of the whole tree. */
  lemma RulesPlug(k: Ctx, t: Tree)
    ensures Rules(k, t) <==> RedBlack(Plug(k, t))
  {
    RulesCompose(k, Top, t);
    ComposeTop(k);
  }

  /** Swapping the node of a frame leaves the colour rules of a path as they were. */
  lemma {:induction false} FrameNodeIrrelevant(inner: Ctx, l: Tree, a: Node, b: Node, c: Color, up: Ctx, h: nat)
    ensures var k, k' := Compose(inner, R(l, a, c, up)), Compose(inner, R(l, b, c, up));
            && (CBalanced(k, h) <==> CBalanced(k', h))
            && (CNoRedRed(k) <==> CNoRedRed(k'))
            && CCol(k) == CCol(k')
    decreases inner
  {
    if inner.Top? {
    } else {
      FrameNodeIrrelevant(inner.up, l, a, b, c, up, h + Weight(inner.c));
    }
  }

  // ---------- height ----------

  ghost function Height(t: Tree): nat {
    if t.E? then 0 else 1 + if Height(t.l) > Height(t.r) then Height(t.l) else Height(t.r)
  }

  /** Black height `h` needs at least 2^h - 1 nodes, and no path is longer than 2h (plus a red root). */
  lemma {:induction false} BlackHeightBounds(t: Tree)
    requires Balanced(t) && NoRedRed(t)
    ensures |InOrder(t)| + 1 >= Pow2(BH(t))
    ensures Height(t) <= 2 * BH(t) + 1 - Weight(Col(t))
  {
    if t.E? {
    } else {
      BlackHeightBounds(t.l);
      BlackHeightBounds(t.r);
    }
  }

  lemma SquareMonotone(a: nat, b: nat)
    requires a <= b
    ensures a * a <= b * b
  {
  }

  /** Height at most 2 lg(n + 1), written without logarithms: 2^height <= (n + 1)^2. */
  lemma HeightBound(t: Tree)
    requires RedBlack(t)
    ensures Pow2(Height(t)) <= (|InOrder(t)| + 1) * (|InOrder(t)| + 1)
  {
    BlackHeightBounds(t);
    var h, n := BH(t), |InOrder(t)| + 1;
    Pow2Monotone(Height(t), 2 * h);
    Pow2Add(h, h);
    SquareMonotone(Pow2(h), n);
  }
}
