/** Ghost images for the top-down splay: the tree in the middle and the two trees grown beside it. */
module SplayImage {

  class Node {
    const key: int
    var left: Node?
    var right: Node?

    constructor (key: int)
      ensures this.key == key && left == null && right == null
    {
      this.key := key;
      left, right := null, null;
    }
  }

  datatype Tree = E | T(l: Tree, n: Node, r: Tree)

  /**
   A side tree under construction: nodes hung one below the other, outermost last to be reached.
   In the left one every node keeps its left subtree and the next hangs right; in the right one
   the other way round.
   */
  datatype Chain = Nil | Link(up: Chain, n: Node, side: Tree)

  datatype Links = Links(left: Node?, right: Node?)

  type Mem = map<Node, Links>

  ghost function Snap(nodes: set<Node>): Mem
    reads nodes
  {
    map n | n in nodes :: Links(n.left, n.right)
  }

  ghost predicate Untouched(m: Mem, m': Mem, touched: set<Node>) {
    forall n :: n in m && n !in touched ==> n in m' && m'[n] == m[n]
  }

  ghost function Root(t: Tree): Node? {
    if t.E? then null else t.n
  }

  ghost function Nodes(t: Tree): set<Node> {
    if t.E? then {} else Nodes(t.l) + {t.n} + Nodes(t.r)
  }

  ghost function InOrder(t: Tree): seq<Node> {
    if t.E? then [] else InOrder(t.l) + [t.n] + InOrder(t.r)
  }

  ghost function Size(t: Tree): nat {
    if t.E? then 0 else Size(t.l) + 1 + Size(t.r)
  }

  ghost predicate Distinct(t: Tree) {
    t.T? ==>
      && Distinct(t.l) && Distinct(t.r)
      && Nodes(t.l) !! Nodes(t.r) && t.n !in Nodes(t.l) && t.n !in Nodes(t.r)
  }

  ghost predicate Linked(m: Mem, t: Tree) {
    t.T? ==>
      && t.n in m && m[t.n] == Links(Root(t.l), Root(t.r))
      && Linked(m, t.l) && Linked(m, t.r)
  }

  lemma {:induction false} LinkedFrame(m: Mem, m': Mem, t: Tree)
    requires Linked(m, t) && forall n :: n in Nodes(t) && n in m ==> n in m' && m'[n] == m[n]
    ensures Linked(m', t)
  {
    if t.E? {
    } else {
      LinkedFrame(m, m', t.l);
      LinkedFrame(m, m', t.r);
    }
  }

  // ---------- chains ----------

  ghost function CNodes(c: Chain): set<Node> {
    if c.Nil? then {} else CNodes(c.up) + {c.n} + Nodes(c.side)
  }

  ghost predicate CDistinct(c: Chain) {
    c.Link? ==>
      && CDistinct(c.up) && Distinct(c.side)
      && CNodes(c.up) !! Nodes(c.side) && c.n !in CNodes(c.up) && c.n !in Nodes(c.side)
  }

  /** Where the next node will be hung: the innermost node, or the header of an empty side. */
  ghost function Tail(header: Node, c: Chain): Node {
    if c.Nil? then header else c.n
  }

  /** A left side hangs from the header's right link; the innermost right link is still open. */
  ghost predicate LeftChain(m: Mem, header: Node, c: Chain) {
    c.Link? ==>
      && c.n in m && m[c.n].left == Root(c.side) && Linked(m, c.side)
      && Tail(header, c.up) in m && m[Tail(header, c.up)].right == c.n
      && LeftChain(m, header, c.up)
  }

  ghost predicate RightChain(m: Mem, header: Node, c: Chain) {
    c.Link? ==>
      && c.n in m && m[c.n].right == Root(c.side) && Linked(m, c.side)
      && Tail(header, c.up) in m && m[Tail(header, c.up)].left == c.n
      && RightChain(m, header, c.up)
  }

  /** `m'` differs from `m` on the chain at most in the open link. */
  ghost predicate LeftKept(m: Mem, m': Mem, header: Node, c: Chain) {
    c.Link? ==>
      && (forall n :: n in CNodes(c) && n in m && n != c.n ==> n in m' && m'[n] == m[n])
      && (c.n in m ==> c.n in m' && m'[c.n].left == m[c.n].left)
      && (header in m ==> header in m' && m'[header].right == m[header].right)
  }

  ghost predicate RightKept(m: Mem, m': Mem, header: Node, c: Chain) {
    c.Link? ==>
      && (forall n :: n in CNodes(c) && n in m && n != c.n ==> n in m' && m'[n] == m[n])
      && (c.n in m ==> c.n in m' && m'[c.n].right == m[c.n].right)
      && (header in m ==> header in m' && m'[header].left == m[header].left)
  }

  lemma {:induction false} LeftFrame(m: Mem, m': Mem, header: Node, c: Chain)
    requires LeftChain(m, header, c) && CDistinct(c) && header !in CNodes(c) && LeftKept(m, m', header, c)
    ensures LeftChain(m', header, c)
  {
    if c.Nil? {
    } else {
      LinkedFrame(m, m', c.side);
      LeftFrame(m, m', header, c.up);
    }
  }

  lemma {:induction false} RightFrame(m: Mem, m': Mem, header: Node, c: Chain)
    requires RightChain(m, header, c) && CDistinct(c) && header !in CNodes(c) && RightKept(m, m', header, c)
    ensures RightChain(m', header, c)
  {
    if c.Nil? {
    } else {
      LinkedFrame(m, m', c.side);
      RightFrame(m, m', header, c.up);
    }
  }

  /** The left side, completed with a subtree in its open place. */
  ghost function LeftClose(c: Chain, t: Tree): Tree {
    if c.Nil? then t else LeftClose(c.up, T(c.side, c.n, t))
  }

  ghost function RightClose(c: Chain, t: Tree): Tree {
    if c.Nil? then t else RightClose(c.up, T(t, c.n, c.side))
  }

  /** Filling the open link makes the side a tree below the header. */
  lemma {:induction false} LeftClosed(m: Mem, header: Node, c: Chain, t: Tree)
    requires LeftChain(m, header, c) && Linked(m, t)
    requires Tail(header, c) in m && m[Tail(header, c)].right == Root(t)
    requires CDistinct(c) && Distinct(t) && CNodes(c) !! Nodes(t)
    ensures Linked(m, LeftClose(c, t)) && Distinct(LeftClose(c, t))
    ensures header in m ==> c.Nil? || m[header].right == Root(LeftClose(c, t))
    ensures c.Nil? ==> LeftClose(c, t) == t
    ensures Nodes(LeftClose(c, t)) == CNodes(c) + Nodes(t)
    decreases c
  {
    if c.Nil? {
    } else {
      LeftClosed(m, header, c.up, T(c.side, c.n, t));
    }
  }

  lemma {:induction false} RightClosed(m: Mem, header: Node, c: Chain, t: Tree)
    requires RightChain(m, header, c) && Linked(m, t)
    requires Tail(header, c) in m && m[Tail(header, c)].left == Root(t)
    requires CDistinct(c) && Distinct(t) && CNodes(c) !! Nodes(t)
    ensures Linked(m, RightClose(c, t)) && Distinct(RightClose(c, t))
    ensures header in m ==> c.Nil? || m[header].left == Root(RightClose(c, t))
    ensures c.Nil? ==> RightClose(c, t) == t
    ensures Nodes(RightClose(c, t)) == CNodes(c) + Nodes(t)
    decreases c
  {
    if c.Nil? {
    } else {
      RightClosed(m, header, c.up, T(t, c.n, c.side));
    }
  }

  // ---------- order ----------

  ghost function LeftOrder(c: Chain): seq<Node> {
    if c.Nil? then [] else LeftOrder(c.up) + InOrder(c.side) + [c.n]
  }

  ghost function RightOrder(c: Chain): seq<Node> {
    if c.Nil? then [] else [c.n] + InOrder(c.side) + RightOrder(c.up)
  }

  lemma RegroupLeft(a: seq<Node>, b: seq<Node>, c: seq<Node>, d: seq<Node>)
    ensures a + (b + c + d) == a + b + c + d
  {
  }

  lemma RegroupRight(a: seq<Node>, b: seq<Node>, c: seq<Node>, d: seq<Node>)
    ensures (a + b + c) + d == a + (b + c + d)
  {
  }

  lemma {:induction false} LeftCloseOrder(c: Chain, t: Tree)
    ensures InOrder(LeftClose(c, t)) == LeftOrder(c) + InOrder(t)
    decreases c
  {
    if c.Nil? {
    } else {
      LeftCloseOrder(c.up, T(c.side, c.n, t));
      RegroupLeft(LeftOrder(c.up), InOrder(c.side), [c.n], InOrder(t));
    }
  }

  lemma {:induction false} RightCloseOrder(c: Chain, t: Tree)
    ensures InOrder(RightClose(c, t)) == InOrder(t) + RightOrder(c)
    decreases c
  {
    if c.Nil? {
    } else {
      RightCloseOrder(c.up, T(t, c.n, c.side));
      RegroupRight(InOrder(t), [c.n], InOrder(c.side), RightOrder(c.up));
    }
  }

  /** Strictly increasing keys. */
  ghost predicate Sorted(s: seq<Node>) {
    forall i, j :: 0 <= i < j < |s| ==> s[i].key < s[j].key
  }
}
