/**
 What a splay costs in the long run: the potential argument behind the bounds that `tree.h` states.
 Ranks are whole logarithms of subtree sizes.
 */
module SplayCost {
  import opened SplayImage

  /** The binary logarithm, rounded down; 0 for 0. */
  function Lg(n: nat): nat {
    if n < 2 then 0 else 1 + Lg(n / 2)
  }

  lemma {:induction false} LgMonotone(a: nat, b: nat)
    requires a <= b
    ensures Lg(a) <= Lg(b)
  {
    if a < 2 {
    } else {
      LgMonotone(a / 2, b / 2);
    }
  }

  /** Of two parts of a whole, one is of smaller rank. */
  lemma OneSmaller(a: nat, b: nat, c: nat)
    requires a + b <= c && 2 <= c
    ensures Lg(a) < Lg(c) || Lg(b) < Lg(c)
  {
    var least := if a <= b then a else b;
    LgMonotone(least, c / 2);
  }

  ghost function Pot(t: Tree): nat {
    if t.E? then 0 else Pot(t.l) + Pot(t.r) + Lg(Size(t))
  }

  /** The potential of a side tree when `inner` nodes will stand in its open place, those nodes' own apart. */
  ghost function ChainPot(c: Chain, inner: nat): nat {
    if c.Nil? then 0
    else
      var size := inner + 1 + Size(c.side);
      Lg(size) + Pot(c.side) + ChainPot(c.up, size)
  }

  /** The nodes on the way down to the key, or to where it is missing. */
  ghost function Visited(t: Tree, key: int): nat {
    if t.E? then 0
    else if key < t.n.key then 1 + Visited(t.l, key)
    else if key > t.n.key then 1 + Visited(t.r, key)
    else 1
  }

  /** So many rounds have come from one tree at most two nodes a round nearer to the key in the other. */
  ghost predicate Within(t: Tree, u: Tree, key: int, rounds: nat) {
    Visited(t, key) <= Visited(u, key) + 2 * rounds
  }

  lemma OnceLeft(t: Tree, key: int)
    requires t.T? && key < t.n.key
    ensures Within(t, t.l, key, 1)
  {
  }

  lemma OnceRight(t: Tree, key: int)
    requires t.T? && t.n.key < key
    ensures Within(t, t.r, key, 1)
  {
  }

  lemma TwiceLeft(t: Tree, key: int)
    requires t.T? && t.l.T? && key < t.n.key && key < t.l.n.key
    ensures Within(t, t.l.l, key, 1)
    ensures Within(t, T(t.l.l, t.l.n, T(t.l.r, t.n, t.r)), key, 1)
  {
  }

  lemma TwiceRight(t: Tree, key: int)
    requires t.T? && t.r.T? && t.n.key < key && t.r.n.key < key
    ensures Within(t, t.r.r, key, 1)
    ensures Within(t, T(T(t.l, t.n, t.r.l), t.r.n, t.r.r), key, 1)
  {
  }

  lemma OneMoreRound(t: Tree, u: Tree, v: Tree, key: int, rounds: nat)
    requires Within(t, u, key, rounds) && Within(u, v, key, 1)
    ensures Within(t, v, key, rounds + 1)
  {
  }

  /** No splay is cheaper than half the way to the key. */
  lemma HalfTheWay(t: Tree, u: Tree, key: int, rounds: nat)
    requires Within(t, u, key, rounds) && u.T?
    requires u.n.key == key || (key < u.n.key && u.l.E?) || (u.n.key < key && u.r.E?)
    ensures Visited(t, key) <= 2 * rounds + 1
  {
    assert Visited(E, key) == 0;
  }

  /** How many nodes of the middle tree the search for the key will hand to the right side at most. */
  ghost function Over(t: Tree, key: int): nat {
    if t.E? then 0
    else if key < t.n.key then Over(t.l, key) + 1 + Size(t.r)
    else if key > t.n.key then Over(t.r, key)
    else Size(t.r)
  }

  /** How many to the left side. */
  ghost function Under(t: Tree, key: int): nat {
    if t.E? then 0
    else if key > t.n.key then Under(t.r, key) + 1 + Size(t.l)
    else if key < t.n.key then Under(t.l, key)
    else Size(t.l)
  }

  lemma {:induction false} OverUnder(t: Tree, key: int)
    ensures Over(t, key) + Under(t, key) <= Size(t)
  {
    if t.E? {
    } else if key < t.n.key {
      OverUnder(t.l, key);
    } else if key > t.n.key {
      OverUnder(t.r, key);
    }
  }

  /** The potential in the middle of a splay, the sides as large as they will be. */
  ghost function Est(ls: Chain, t: Tree, rs: Chain, key: int): nat {
    ChainPot(ls, Under(t, key)) + Pot(t) + ChainPot(rs, Over(t, key))
  }

  /** Whether the next node handed over loses rank by that; then that step pays for itself and the one before. */
  ghost function Light(t: Tree, key: int): nat {
    if t.E? || key == t.n.key then 1
    else if Lg(if key < t.n.key then Over(t, key) else Under(t, key)) < Lg(Size(t)) then 1
    else 0
  }

  /** What is left to pay the rounds with. */
  ghost function Charge(ls: Chain, t: Tree, rs: Chain, key: int): int {
    2 * Est(ls, t, rs, key) + 4 * Lg(Size(t)) - Light(t, key)
  }

  // ---------- one round ----------

  /** The root goes to the right side; the search turns or ends in the left subtree. */
  lemma LinkLeftCost(ls: Chain, t: Tree, rs: Chain, key: int)
    requires t.T? && t.l.T? && t.l.n.key <= key < t.n.key
    ensures 1 + Charge(ls, t.l, Link(rs, t.n, t.r), key) <= Charge(ls, t, rs, key)
  {
    LinkLeftEst(ls, t, rs, key);
    OverUnder(t, key);
    LgMonotone(Over(t, key), Size(t));
    LgMonotone(Size(t.l), Size(t));
    OneSmaller(Over(t, key), Under(t, key), Size(t));
  }

  lemma LinkLeftEst(ls: Chain, t: Tree, rs: Chain, key: int)
    requires t.T? && key < t.n.key
    ensures Est(ls, t.l, Link(rs, t.n, t.r), key) + Lg(Size(t)) == Est(ls, t, rs, key) + Lg(Over(t, key))
    ensures Under(t.l, key) == Under(t, key)
  {
  }

  lemma LinkRightCost(ls: Chain, t: Tree, rs: Chain, key: int)
    requires t.T? && t.r.T? && t.n.key < key <= t.r.n.key
    ensures 1 + Charge(Link(ls, t.n, t.l), t.r, rs, key) <= Charge(ls, t, rs, key)
  {
    LinkRightEst(ls, t, rs, key);
    OverUnder(t, key);
    LgMonotone(Under(t, key), Size(t));
    LgMonotone(Size(t.r), Size(t));
    OneSmaller(Over(t, key), Under(t, key), Size(t));
  }

  lemma LinkRightEst(ls: Chain, t: Tree, rs: Chain, key: int)
    requires t.T? && t.n.key < key
    ensures Est(Link(ls, t.n, t.l), t.r, rs, key) + Lg(Size(t)) == Est(ls, t, rs, key) + Lg(Under(t, key))
    ensures Over(t.r, key) == Over(t, key)
  {
  }

  /** What the rotation to the right does to the potential. */
  lemma RotateRightEst(ls: Chain, t: Tree, rs: Chain, key: int)
    requires t.T? && t.l.T? && key < t.n.key && key < t.l.n.key
    ensures var below := T(t.l.r, t.n, t.r);
            var u := T(t.l.l, t.l.n, below);
            && Est(ls, u, rs, key) + Lg(Size(t.l)) == Est(ls, t, rs, key) + Lg(Size(below))
            && Over(u, key) == Over(t, key) && Under(u, key) == Under(t, key) && Size(u) == Size(t)
  {
    var below := T(t.l.r, t.n, t.r);
    var u := T(t.l.l, t.l.n, below);
    assert Size(below) == Size(t.l.r) + 1 + Size(t.r) && Size(t.l) == Size(t.l.l) + 1 + Size(t.l.r);
    assert Over(t.l, key) == Over(t.l.l, key) + 1 + Size(t.l.r) && Under(t.l, key) == Under(t.l.l, key);
    assert Pot(below) == Pot(t.l.r) + Pot(t.r) + Lg(Size(below));
    assert Pot(t.l) == Pot(t.l.l) + Pot(t.l.r) + Lg(Size(t.l));
  }

  lemma RotateLeftEst(ls: Chain, t: Tree, rs: Chain, key: int)
    requires t.T? && t.r.T? && t.n.key < key && t.r.n.key < key
    ensures var below := T(t.l, t.n, t.r.l);
            var u := T(below, t.r.n, t.r.r);
            && Est(ls, u, rs, key) + Lg(Size(t.r)) == Est(ls, t, rs, key) + Lg(Size(below))
            && Over(u, key) == Over(t, key) && Under(u, key) == Under(t, key) && Size(u) == Size(t)
  {
    var below := T(t.l, t.n, t.r.l);
    var u := T(below, t.r.n, t.r.r);
    assert Size(below) == Size(t.l) + 1 + Size(t.r.l) && Size(t.r) == Size(t.r.l) + 1 + Size(t.r.r);
    assert Under(t.r, key) == Under(t.r.r, key) + 1 + Size(t.r.l) && Over(t.r, key) == Over(t.r.r, key);
    assert Pot(below) == Pot(t.l) + Pot(t.r.l) + Lg(Size(below));
    assert Pot(t.r) == Pot(t.r.l) + Pot(t.r.r) + Lg(Size(t.r));
  }

  /** Two steps to the left: rotation, then the new root goes to the right side. */
  lemma TwiceLeftCost(ls: Chain, t: Tree, rs: Chain, key: int)
    requires t.T? && t.l.T? && t.l.l.T? && key < t.n.key && key < t.l.n.key
    ensures 1 + Charge(ls, t.l.l, Link(rs, t.l.n, T(t.l.r, t.n, t.r)), key) <= Charge(ls, t, rs, key)
  {
    var below := T(t.l.r, t.n, t.r);
    var u := T(t.l.l, t.l.n, below);
    RotateRightEst(ls, t, rs, key);
    LinkLeftEst(ls, u, rs, key);
    OverUnder(t, key);
    LgMonotone(Over(t, key), Size(t));
    LgMonotone(Size(t.l.l), Size(t.l));
    LgMonotone(Size(t.l), Size(t));
    LgMonotone(Size(below), Size(t));
    OneSmaller(Size(t.l.l), Size(below), Size(t));
  }

  lemma TwiceRightCost(ls: Chain, t: Tree, rs: Chain, key: int)
    requires t.T? && t.r.T? && t.r.r.T? && t.n.key < key && t.r.n.key < key
    ensures 1 + Charge(Link(ls, t.r.n, T(t.l, t.n, t.r.l)), t.r.r, rs, key) <= Charge(ls, t, rs, key)
  {
    var below := T(t.l, t.n, t.r.l);
    var u := T(below, t.r.n, t.r.r);
    RotateLeftEst(ls, t, rs, key);
    LinkRightEst(ls, u, rs, key);
    OverUnder(t, key);
    LgMonotone(Under(t, key), Size(t));
    LgMonotone(Size(t.r.r), Size(t.r));
    LgMonotone(Size(t.r), Size(t));
    LgMonotone(Size(below), Size(t));
    OneSmaller(Size(t.r.r), Size(below), Size(t));
  }

  // ---------- the end ----------

  /** What the loop ends with, in a round that broke it or because the key is at the root. */
  ghost predicate Settled(ls: Chain, t: Tree, rs: Chain, key: int, charge: int) {
    2 * Est(ls, t, rs, key) + 2 * Lg(Size(t)) <= charge + 1
  }

  lemma StaysSettled(ls: Chain, t: Tree, rs: Chain, key: int)
    ensures Settled(ls, t, rs, key, Charge(ls, t, rs, key))
  {
  }

  lemma RotatedRightSettled(ls: Chain, t: Tree, rs: Chain, key: int)
    requires t.T? && t.l.T? && key < t.n.key && key < t.l.n.key
    ensures Settled(ls, T(t.l.l, t.l.n, T(t.l.r, t.n, t.r)), rs, key, Charge(ls, t, rs, key))
  {
    RotateRightEst(ls, t, rs, key);
    LgMonotone(Size(T(t.l.r, t.n, t.r)), Size(t));
  }

  lemma RotatedLeftSettled(ls: Chain, t: Tree, rs: Chain, key: int)
    requires t.T? && t.r.T? && t.n.key < key && t.r.n.key < key
    ensures Settled(ls, T(T(t.l, t.n, t.r.l), t.r.n, t.r.r), rs, key, Charge(ls, t, rs, key))
  {
    RotateLeftEst(ls, t, rs, key);
    LgMonotone(Size(T(t.l, t.n, t.r.l)), Size(t));
  }

  lemma {:induction false} LeftClosePot(c: Chain, t: Tree)
    ensures Pot(LeftClose(c, t)) == Pot(t) + ChainPot(c, Size(t))
    decreases c
  {
    if c.Nil? {
    } else {
      LeftClosePot(c.up, T(c.side, c.n, t));
    }
  }

  lemma {:induction false} RightClosePot(c: Chain, t: Tree)
    ensures Pot(RightClose(c, t)) == Pot(t) + ChainPot(c, Size(t))
    decreases c
  {
    if c.Nil? {
    } else {
      RightClosePot(c.up, T(t, c.n, c.side));
    }
  }

  lemma {:induction false} ChainPotMonotone(c: Chain, a: nat, b: nat)
    requires a <= b
    ensures ChainPot(c, a) <= ChainPot(c, b)
  {
    if c.Nil? {
    } else {
      var n := 1 + Size(c.side);
      LgMonotone(a + n, b + n);
      ChainPotMonotone(c.up, a + n, b + n);
    }
  }

  /** Where the search ends the sides are no larger than they were taken to be. */
  lemma JoinedPot(ls: Chain, t: Tree, rs: Chain, key: int)
    requires t.T?
    requires t.n.key == key || (key < t.n.key && t.l.E?) || (t.n.key < key && t.r.E?)
    ensures var joined := T(LeftClose(ls, t.l), t.n, RightClose(rs, t.r));
            Pot(joined) + Lg(Size(t)) <= Est(ls, t, rs, key) + Lg(Size(joined))
  {
    LeftClosePot(ls, t.l);
    RightClosePot(rs, t.r);
    ChainPotMonotone(ls, Size(t.l), Under(t, key));
    ChainPotMonotone(rs, Size(t.r), Over(t, key));
  }

  lemma {:induction false} SizeIsLength(t: Tree)
    ensures Size(t) == |InOrder(t)|
  {
    if t.E? {
    } else {
      SizeIsLength(t.l);
      SizeIsLength(t.r);
    }
  }

  /** The whole splay: its rounds and the new potential against the old one. */
  lemma SplayBound(ls: Chain, t: Tree, rs: Chain, key: int, pot: nat, size: nat, rounds: nat)
    requires t.T?
    requires t.n.key == key || (key < t.n.key && t.l.E?) || (t.n.key < key && t.r.E?)
    requires Settled(ls, t, rs, key, 2 * pot + 4 * Lg(size) + 1 - rounds)
    requires Size(T(LeftClose(ls, t.l), t.n, RightClose(rs, t.r))) == size
    ensures rounds + 2 * Pot(T(LeftClose(ls, t.l), t.n, RightClose(rs, t.r))) <= 2 * pot + 6 * Lg(size) + 2
  {
    JoinedPot(ls, t, rs, key);
  }

  // ---------- sequences of operations ----------

  /** From one tree to the next, in so many rounds: at most `bound` once the potential is settled. */
  ghost predicate Amortised(t: Tree, u: Tree, rounds: nat, bound: nat) {
    rounds + 2 * Pot(u) <= 2 * Pot(t) + bound
  }

  /** A splay within its bound, then a step that adds at most one rank. */
  lemma OneMoreRank(t: Tree, u: Tree, v: Tree, rounds: nat)
    requires Amortised(t, u, rounds, 6 * Lg(Size(t)) + 2) && Size(t) <= Size(v)
    requires Pot(v) <= Pot(u) + Lg(Size(v))
    ensures Amortised(t, v, rounds, 8 * Lg(Size(v)) + 2)
  {
    LgMonotone(Size(t), Size(v));
  }

  /** The root goes, its left subtree is splayed to a tree without right subtree and takes the right one. */
  lemma RejoinCost(t: Tree, l: Tree, rounds: nat)
    requires t.T? && l.T? && l.r.E? && Size(l) == Size(t.l)
    requires Amortised(t.l, l, rounds, 6 * Lg(Size(t.l)) + 2)
    ensures Amortised(t, T(l.l, l.n, t.r), rounds, 6 * Lg(Size(t)) + 2)
  {
    var joined := T(l.l, l.n, t.r);
    assert Size(l) == Size(l.l) + 1 && Pot(l) == Pot(l.l) + Lg(Size(l));
    assert Size(joined) + 1 == Size(t) && Pot(joined) == Pot(l.l) + Pot(t.r) + Lg(Size(joined));
    LgMonotone(Size(t.l), Size(t));
    LgMonotone(Size(joined), Size(t));
  }

  /** The two together: at most twice the bound of a splay. */
  lemma TwoSplays(t: Tree, u: Tree, v: Tree, first: nat, second: nat)
    requires Amortised(t, u, first, 6 * Lg(Size(t)) + 2) && Amortised(u, v, second, 6 * Lg(Size(u)) + 2)
    requires Size(u) == Size(t)
    ensures Amortised(t, v, first + second, 12 * Lg(Size(t)) + 4)
  {
  }

  /** The halves of a tree next to its root below a new root. */
  lemma HalvesCost(t: Tree, elm: Node)
    requires t.T?
    ensures var u := T(t.l, elm, T(E, t.n, t.r)); Size(u) == Size(t) + 1 && Pot(u) <= Pot(t) + Lg(Size(u))
    ensures var u := T(T(t.l, t.n, E), elm, t.r); Size(u) == Size(t) + 1 && Pot(u) <= Pot(t) + Lg(Size(u))
  {
    var r, l := T(E, t.n, t.r), T(t.l, t.n, E);
    assert Size(r) == 1 + Size(t.r) && Pot(r) == Pot(t.r) + Lg(Size(r));
    assert Size(l) == Size(t.l) + 1 && Pot(l) == Pot(t.l) + Lg(Size(l));
    LgMonotone(Size(r), Size(t));
    LgMonotone(Size(l), Size(t));
  }

  function Sum(rounds: seq<nat>): nat {
    if rounds == [] then 0 else Sum(rounds[..|rounds| - 1]) + rounds[|rounds| - 1]
  }

  /** Any sequence of operations costs the sum of their bounds and the potential there was at the beginning. */
  lemma {:induction false} SequenceCost(trees: seq<Tree>, rounds: seq<nat>, bound: nat)
    requires |trees| == |rounds| + 1
    requires forall i :: 0 <= i < |rounds| ==> Amortised(trees[i], trees[i + 1], rounds[i], bound)
    ensures Sum(rounds) + 2 * Pot(trees[|rounds|]) <= |rounds| * bound + 2 * Pot(trees[0])
    decreases |rounds|
  {
    var m := |rounds|;
    if m == 0 {
    } else {
      SequenceCost(trees[..m], rounds[..m - 1], bound);
      assert Amortised(trees[m - 1], trees[m], rounds[m - 1], bound);
      OneMoreBound(m - 1, bound);
    }
  }

  lemma OneMoreBound(m: nat, bound: nat)
    ensures m * bound + bound == (m + 1) * bound
  {
  }

  /** What the contracts of find and minmax, of insert, or of remove say of their rounds. */
  ghost predicate Operation(t: Tree, u: Tree, rounds: nat) {
    || Amortised(t, u, rounds, 6 * Lg(Size(t)) + 2)
    || Amortised(t, u, rounds, 8 * Lg(Size(u)) + 2)
    || Amortised(t, u, rounds, 12 * Lg(Size(t)) + 4)
  }

  /** The Balance Theorem: m operations from the empty tree on, never more than n nodes, take O(m lg n) rounds. */
  lemma Balance(trees: seq<Tree>, rounds: seq<nat>, n: nat)
    requires |trees| == |rounds| + 1 && trees[0] == E && forall i :: 0 <= i < |trees| ==> Size(trees[i]) <= n
    requires forall i :: 0 <= i < |rounds| ==> Operation(trees[i], trees[i + 1], rounds[i])
    ensures Sum(rounds) <= |rounds| * (12 * Lg(n) + 4)
  {
    forall i | 0 <= i < |rounds|
      ensures Amortised(trees[i], trees[i + 1], rounds[i], 12 * Lg(n) + 4)
    {
      LgMonotone(Size(trees[i]), n);
      LgMonotone(Size(trees[i + 1]), n);
    }
    SequenceCost(trees, rounds, 12 * Lg(n) + 4);
  }

  /** m accesses to any tree of n nodes take O(m lg n) rounds, and n lg n once for the shape it has at first. */
  lemma Accesses(trees: seq<Tree>, rounds: seq<nat>, n: nat)
    requires |trees| == |rounds| + 1 && forall i :: 0 <= i < |trees| ==> Size(trees[i]) == n
    requires forall i :: 0 <= i < |rounds| ==> Amortised(trees[i], trees[i + 1], rounds[i], 6 * Lg(n) + 2)
    ensures Sum(rounds) <= |rounds| * (6 * Lg(n) + 2) + 2 * (n * Lg(n))
  {
    SequenceCost(trees, rounds, 6 * Lg(n) + 2);
    PotBound(trees[0], Lg(n));
  }

  lemma {:induction false} PotBound(t: Tree, k: nat)
    requires Lg(Size(t)) <= k
    ensures Pot(t) <= Size(t) * k
  {
    if t.E? {
    } else {
      LgMonotone(Size(t.l), Size(t));
      LgMonotone(Size(t.r), Size(t));
      PotBound(t.l, k);
      PotBound(t.r, k);
      Distribute(Size(t.l), Size(t.r), k);
    }
  }

  lemma Distribute(a: nat, b: nat, k: nat)
    ensures a * k + b * k + k == (a + 1 + b) * k
  {
  }
}
