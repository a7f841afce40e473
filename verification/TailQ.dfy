/** The tail queues of `queue.h`, whose back links are addresses of forward links. */
module TailQ {

  // ---------- memory ----------

  /** The address of a forward link: a head's `tqh_first` or an element's `tqe_next`. */
  datatype Addr = FirstOf(head: Head) | NextOf(elem: Elem)

  /** A `TAILQ_ENTRY`: two words, the second behind the first as in a head. */
  class Elem {
    var next: Elem?
    var prev: Addr

    constructor (q: Head)
    {
      next, prev := null, FirstOf(q);
    }
  }

  /** A `TAILQ_HEAD`. */
  class Head {
    var first: Elem?
    var last: Addr

    /** TAILQ_INIT */
    constructor ()
      ensures Queue(this, [])
    {
      first := null;
      last := FirstOf(this);
    }
  }

  /** The queue of this head holds these elements. */
  ghost predicate Queue(q: Head, s: seq<Elem>)
    reads q, s
  {
    Image(Snap(Cells(q, s)), q, s)
  }

  function Owner(a: Addr): object {
    match a
    case FirstOf(q) => q
    case NextOf(e) => e
  }

  /** `*a` */
  function Deref(a: Addr): Elem?
    reads Owner(a)
  {
    match a
    case FirstOf(q) => q.first
    case NextOf(e) => e.next
  }

  /** The word behind `*a`: what `((struct headname *)a)->tqh_last` reads, whatever `a` lies in. */
  function Second(a: Addr): Addr
    reads Owner(a)
  {
    match a
    case FirstOf(q) => q.last
    case NextOf(e) => e.prev
  }

  /** The two words at an address. */
  datatype Pair = Pair(link: Elem?, back: Addr)

  ghost function Snap(addrs: set<Addr>): map<Addr, Pair>
    reads set a | a in addrs :: Owner(a)
  {
    map a | a in addrs :: Pair(Deref(a), Second(a))
  }

  ghost function SetLink(m: map<Addr, Pair>, a: Addr, v: Elem?): map<Addr, Pair>
    requires a in m
  {
    m[a := Pair(v, m[a].back)]
  }

  ghost function SetBack(m: map<Addr, Pair>, a: Addr, b: Addr): map<Addr, Pair>
    requires a in m
  {
    m[a := Pair(m[a].link, b)]
  }

  // ---------- what a queue looks like in memory ----------

  ghost predicate Distinct(s: seq<Elem>) {
    forall i, j :: 0 <= i < j < |s| ==> s[i] != s[j]
  }

  ghost function Cells(q: Head, s: seq<Elem>): set<Addr> {
    {FirstOf(q)} + set i | 0 <= i < |s| :: NextOf(s[i])
  }

  /** The address of the link that points at position `i`. */
  ghost function Place(q: Head, s: seq<Elem>, i: nat): Addr
    requires i <= |s|
  {
    if i == 0 then FirstOf(q) else NextOf(s[i - 1])
  }

  /** The pair whose second word points back at that link: the element's, or at the end the head's. */
  ghost function Holder(q: Head, s: seq<Elem>, i: nat): Addr
    requires i <= |s|
  {
    if i == |s| then FirstOf(q) else NextOf(s[i])
  }

  ghost function ElemAt(s: seq<Elem>, i: nat): Elem? {
    if i < |s| then s[i] else null
  }

  ghost predicate ImageAt(m: map<Addr, Pair>, q: Head, s: seq<Elem>, i: nat)
    requires i <= |s|
  {
    && Place(q, s, i) in m && m[Place(q, s, i)].link == ElemAt(s, i)
    && Holder(q, s, i) in m && m[Holder(q, s, i)].back == Place(q, s, i)
  }

  ghost predicate Image(m: map<Addr, Pair>, q: Head, s: seq<Elem>) {
    Distinct(s) && forall i :: 0 <= i <= |s| ==> ImageAt(m, q, s, i)
  }

  lemma ImageFrame(m: map<Addr, Pair>, n: map<Addr, Pair>, q: Head, s: seq<Elem>)
    requires Image(m, q, s) && forall a :: a in Cells(q, s) ==> a in n && (a in m ==> n[a] == m[a])
    ensures Image(n, q, s)
  {
    forall i | 0 <= i <= |s|
      ensures ImageAt(n, q, s, i)
    {
      assert ImageAt(m, q, s, i);
      assert Place(q, s, i) in Cells(q, s) && Holder(q, s, i) in Cells(q, s);
    }
  }

  // ---------- linking in and out ----------

  /** The four words an insertion at position `i` writes. */
  ghost function Inserted(m: map<Addr, Pair>, q: Head, s: seq<Elem>, i: nat, elm: Elem): map<Addr, Pair>
    requires Image(m, q, s) && i <= |s| && NextOf(elm) in m && elm !in s
  {
    assert ImageAt(m, q, s, i);
    var own := m[NextOf(elm) := Pair(ElemAt(s, i), Place(q, s, i))];
    SetBack(SetLink(own, Place(q, s, i), elm), Holder(q, s, i), NextOf(elm))
  }

  lemma InsertedImage(m: map<Addr, Pair>, q: Head, s: seq<Elem>, i: nat, elm: Elem)
    requires Image(m, q, s) && i <= |s| && NextOf(elm) in m && elm !in s
    ensures Image(Inserted(m, q, s, i, elm), q, s[..i] + [elm] + s[i..])
  {
    var t, n := s[..i] + [elm] + s[i..], Inserted(m, q, s, i, elm);
    assert ImageAt(m, q, s, i);
    forall j | 0 <= j <= |t|
      ensures ImageAt(n, q, t, j)
    {
      if j < i {
        assert ImageAt(m, q, s, j);
      } else if j > i + 1 {
        assert ImageAt(m, q, s, j - 1);
      }
    }
  }

  /** The two words a removal at position `i` writes. */
  ghost function Removed(m: map<Addr, Pair>, q: Head, s: seq<Elem>, i: nat): map<Addr, Pair>
    requires Image(m, q, s) && i < |s|
  {
    assert ImageAt(m, q, s, i) && ImageAt(m, q, s, i + 1);
    SetLink(SetBack(m, Holder(q, s, i + 1), Place(q, s, i)), Place(q, s, i), ElemAt(s, i + 1))
  }

  lemma RemovedImage(m: map<Addr, Pair>, q: Head, s: seq<Elem>, i: nat)
    requires Image(m, q, s) && i < |s|
    ensures Image(Removed(m, q, s, i), q, s[..i] + s[i + 1..])
  {
    var t, n := s[..i] + s[i + 1..], Removed(m, q, s, i);
    assert ImageAt(m, q, s, i) && ImageAt(m, q, s, i + 1);
    forall j | 0 <= j <= |t|
      ensures ImageAt(n, q, t, j)
    {
      if j < i {
        assert ImageAt(m, q, s, j);
      } else if j > i {
        assert ImageAt(m, q, s, j + 1);
      }
    }
  }

  // ---------- the operations ----------

  /** `*a = v` */
  method Store(a: Addr, v: Elem?, ghost addrs: set<Addr>, ghost m: map<Addr, Pair>) returns (ghost n: map<Addr, Pair>)
    requires m == Snap(addrs) && a in addrs
    modifies Owner(a)
    ensures n == Snap(addrs) == SetLink(m, a, v)
  {
    match a {
      case FirstOf(q) => q.first := v;
      case NextOf(e) => e.next := v;
    }
    n := Snap(addrs);
  }

  /** The same for the word behind: an element's `tqe_prev` or a head's `tqh_last`. */
  method StoreBack(a: Addr, b: Addr, ghost addrs: set<Addr>, ghost m: map<Addr, Pair>)
    returns (ghost n: map<Addr, Pair>)
    requires m == Snap(addrs) && a in addrs
    modifies Owner(a)
    ensures n == Snap(addrs) == SetBack(m, a, b)
  {
    match a {
      case FirstOf(q) => q.last := b;
      case NextOf(e) => e.prev := b;
    }
    n := Snap(addrs);
  }

  /** The words around an insertion, before it. */
  lemma Around(q: Head, s: seq<Elem>, i: nat, elm: Elem, addrs: set<Addr>)
    requires Queue(q, s) && elm !in s && i <= |s| && addrs == Cells(q, s) + {NextOf(elm)}
    ensures Image(Snap(addrs), q, s) && ImageAt(Snap(addrs), q, s, i)
  {
    var m := Snap(addrs);
    ImageFrame(Snap(Cells(q, s)), m, q, s);
    assert ImageAt(m, q, s, i);
  }

  /** The words after it: the four are written, in whatever order, and nothing else. */
  lemma Linked(q: Head, s: seq<Elem>, i: nat, elm: Elem, addrs: set<Addr>, m: map<Addr, Pair>, n: map<Addr, Pair>)
    requires Image(m, q, s) && i <= |s| && elm !in s && addrs == Cells(q, s) + {NextOf(elm)} && m.Keys == addrs
    requires Snap(addrs) == n == Inserted(m, q, s, i, elm)
    ensures Queue(q, s[..i] + [elm] + s[i..])
  {
    var t := s[..i] + [elm] + s[i..];
    InsertedImage(m, q, s, i, elm);
    assert Cells(q, t) <= addrs;
    ImageFrame(n, Snap(Cells(q, t)), q, t);
  }

  /** The order in which an insertion writes: its own back link last. */
  lemma BackLast(m: map<Addr, Pair>, own: Addr, place: Addr, holder: Addr, link: Elem?, back: Addr, elm: Elem)
    requires own in m && place in m && holder in m && own != place && own != holder
    ensures SetBack(SetLink(m[own := Pair(link, back)], place, elm), holder, own) ==
            SetBack(SetLink(SetBack(SetLink(m, own, link), holder, own), place, elm), own, back)
  {
    var n := SetBack(SetLink(SetBack(SetLink(m, own, link), holder, own), place, elm), own, back);
    var n' := SetBack(SetLink(m[own := Pair(link, back)], place, elm), holder, own);
    assert n.Keys == m.Keys == n'.Keys;
    forall a | a in m.Keys
      ensures n[a] == n'[a]
    {
    }
  }

  /** Its own two words first. */
  lemma OwnFirst(m: map<Addr, Pair>, own: Addr, link: Elem?, back: Addr)
    requires own in m
    ensures SetBack(SetLink(m, own, link), own, back) == m[own := Pair(link, back)]
    ensures SetLink(SetBack(m, own, back), own, link) == m[own := Pair(link, back)]
  {
  }

  lemma Ends(s: seq<Elem>, elm: Elem)
    ensures s[..0] + [elm] + s[0..] == [elm] + s
    ensures s[..|s|] + [elm] + s[|s|..] == s + [elm]
    ensures s != [] ==> s[..0] + s[1..] == s[1..]
  {
  }

  /** The writes of TAILQ_INSERT_HEAD and TAILQ_INSERT_AFTER, which differ in the link they start from. */
  method LinkBehind(q: Head, place: Addr, next: Elem?, elm: Elem, ghost addrs: set<Addr>, ghost m: map<Addr, Pair>)
    returns (ghost n: map<Addr, Pair>)
    requires m == Snap(addrs) && Deref(place) == next && place != NextOf(elm) && next != elm
    requires {FirstOf(q), NextOf(elm), place} <= addrs && (next != null ==> NextOf(next) in addrs)
    modifies q, Owner(place), elm, if next == null then q else next
    ensures var holder := if next != null then NextOf(next) else FirstOf(q);
            n == Snap(addrs) == SetBack(SetLink(m[NextOf(elm) := Pair(next, place)], place, elm), holder, NextOf(elm))
  {
    var holder := if next != null then NextOf(next) else FirstOf(q);
    n := Store(NextOf(elm), next, addrs, m);
    n := StoreBack(holder, NextOf(elm), addrs, n);
    n := Store(place, elm, addrs, n);
    n := StoreBack(NextOf(elm), place, addrs, n);
    BackLast(m, NextOf(elm), place, holder, next, place, elm);
  }

  /** TAILQ_INSERT_HEAD */
  method InsertHead(q: Head, elm: Elem, ghost s: seq<Elem>)
    requires Queue(q, s) && elm !in s
    modifies q, s, elm
    ensures Queue(q, [elm] + s)
  {
    ghost var addrs := Cells(q, s) + {NextOf(elm)};
    Around(q, s, 0, elm, addrs);
    ghost var m := Snap(addrs);
    ghost var n := LinkBehind(q, FirstOf(q), q.first, elm, addrs, m);
    Linked(q, s, 0, elm, addrs, m, n);
    Ends(s, elm);
  }

  /** TAILQ_INSERT_TAIL */
  method InsertTail(q: Head, elm: Elem, ghost s: seq<Elem>)
    requires Queue(q, s) && elm !in s
    modifies q, s, elm
    ensures Queue(q, s + [elm])
  {
    ghost var addrs := Cells(q, s) + {NextOf(elm)};
    Around(q, s, |s|, elm, addrs);
    ghost var m := Snap(addrs);
    OwnFirst(m, NextOf(elm), null, Place(q, s, |s|));
    var last := q.last;
    ghost var n := Store(NextOf(elm), null, addrs, m);
    n := StoreBack(NextOf(elm), last, addrs, n);
    n := Store(last, elm, addrs, n);
    n := StoreBack(FirstOf(q), NextOf(elm), addrs, n);
    Linked(q, s, |s|, elm, addrs, m, n);
    Ends(s, elm);
  }

  /** TAILQ_INSERT_BEFORE, which does not need the head. */
  method InsertBefore(listelm: Elem, elm: Elem, ghost q: Head, ghost s: seq<Elem>, ghost i: nat)
    requires Queue(q, s) && i < |s| && s[i] == listelm && elm !in s
    modifies q, s, elm
    ensures Queue(q, s[..i] + [elm] + s[i..])
  {
    ghost var addrs := Cells(q, s) + {NextOf(elm)};
    Around(q, s, i, elm, addrs);
    ghost var m := Snap(addrs);
    OwnFirst(m, NextOf(elm), listelm, Place(q, s, i));
    var prev := listelm.prev;
    ghost var n := StoreBack(NextOf(elm), prev, addrs, m);
    n := Store(NextOf(elm), listelm, addrs, n);
    n := Store(prev, elm, addrs, n);
    n := StoreBack(NextOf(listelm), NextOf(elm), addrs, n);
    Linked(q, s, i, elm, addrs, m, n);
  }

  /** TAILQ_INSERT_AFTER */
  method InsertAfter(q: Head, listelm: Elem, elm: Elem, ghost s: seq<Elem>, ghost i: nat)
    requires Queue(q, s) && i < |s| && s[i] == listelm && elm !in s
    modifies q, s, elm
    ensures Queue(q, s[..i + 1] + [elm] + s[i + 1..])
  {
    ghost var addrs := Cells(q, s) + {NextOf(elm)};
    Around(q, s, i + 1, elm, addrs);
    ghost var m := Snap(addrs);
    ghost var n := LinkBehind(q, NextOf(listelm), listelm.next, elm, addrs, m);
    Linked(q, s, i + 1, elm, addrs, m, n);
  }

  /** TAILQ_REMOVE. The element's own forward link stays as it was. */
  method Remove(q: Head, elm: Elem, ghost s: seq<Elem>, ghost i: nat)
    requires Queue(q, s) && i < |s| && s[i] == elm
    modifies q, s
    ensures Queue(q, s[..i] + s[i + 1..]) && elm.next == old(elm.next)
  {
    ghost var addrs := Cells(q, s);
    ghost var m := Snap(addrs);
    assert ImageAt(m, q, s, i) && ImageAt(m, q, s, i + 1);
    var next, prev := elm.next, elm.prev;
    ghost var n := StoreBack(if next != null then NextOf(next) else FirstOf(q), prev, addrs, m);
    n := Store(prev, next, addrs, n);
    Unlinked(q, s, i, addrs, m, n);
  }

  lemma Unlinked(q: Head, s: seq<Elem>, i: nat, addrs: set<Addr>, m: map<Addr, Pair>, n: map<Addr, Pair>)
    requires Image(m, q, s) && i < |s| && addrs == Cells(q, s) && m.Keys == addrs
    requires Snap(addrs) == n == Removed(m, q, s, i)
    ensures Queue(q, s[..i] + s[i + 1..]) && s[i].next == m[NextOf(s[i])].link
  {
    var t := s[..i] + s[i + 1..];
    RemovedImage(m, q, s, i);
    assert Cells(q, t) <= addrs;
    ImageFrame(n, Snap(Cells(q, t)), q, t);
    assert ImageAt(m, q, s, i) && ImageAt(m, q, s, i + 1);
    assert n[NextOf(s[i])].link == s[i].next;
  }

  // ---------- two queues ----------

  ghost predicate Apart(q1: Head, s1: seq<Elem>, q2: Head, s2: seq<Elem>) {
    q1 != q2 && forall i, j :: 0 <= i < |s1| && 0 <= j < |s2| ==> s1[i] != s2[j]
  }

  /** Both queues in one snapshot. */
  lemma Both(q1: Head, s1: seq<Elem>, q2: Head, s2: seq<Elem>, addrs: set<Addr>)
    requires Queue(q1, s1) && Queue(q2, s2) && addrs == Cells(q1, s1) + Cells(q2, s2)
    ensures var m := Snap(addrs);
            && Image(m, q1, s1) && Image(m, q2, s2) && ImageAt(m, q1, s1, |s1|) && ImageAt(m, q2, s2, |s2|)
            && ImageAt(m, q1, s1, 0) && ImageAt(m, q2, s2, 0)
  {
    var m := Snap(addrs);
    ImageFrame(Snap(Cells(q1, s1)), m, q1, s1);
    ImageFrame(Snap(Cells(q2, s2)), m, q2, s2);
    assert ImageAt(m, q1, s1, |s1|) && ImageAt(m, q2, s2, |s2|);
    assert ImageAt(m, q1, s1, 0) && ImageAt(m, q2, s2, 0);
  }

  lemma Settled(addrs: set<Addr>, q: Head, t: seq<Elem>)
    requires Image(Snap(addrs), q, t) && Cells(q, t) <= addrs
    ensures Queue(q, t)
  {
    ImageFrame(Snap(addrs), Snap(Cells(q, t)), q, t);
  }

  /** The words a concatenation writes when the second queue is not empty. */
  ghost function Concatenated(m: map<Addr, Pair>, q1: Head, s1: seq<Elem>, q2: Head, s2: seq<Elem>): map<Addr, Pair>
    requires Image(m, q1, s1) && Image(m, q2, s2) && s2 != []
  {
    assert ImageAt(m, q1, s1, |s1|) && ImageAt(m, q2, s2, 0);
    var joined := SetBack(SetLink(m, Place(q1, s1, |s1|), s2[0]), NextOf(s2[0]), Place(q1, s1, |s1|));
    SetBack(joined, FirstOf(q1), NextOf(s2[|s2| - 1]))[FirstOf(q2) := Pair(null, FirstOf(q2))]
  }

  lemma ConcatenatedImage(m: map<Addr, Pair>, q1: Head, s1: seq<Elem>, q2: Head, s2: seq<Elem>)
    requires Image(m, q1, s1) && Image(m, q2, s2) && s2 != [] && Apart(q1, s1, q2, s2)
    ensures var n := Concatenated(m, q1, s1, q2, s2); Image(n, q1, s1 + s2) && Image(n, q2, [])
  {
    var t, n := s1 + s2, Concatenated(m, q1, s1, q2, s2);
    assert ImageAt(m, q1, s1, |s1|) && ImageAt(m, q2, s2, 0) && ImageAt(m, q2, s2, |s2|);
    assert Distinct(t);
    forall j | 0 <= j <= |t|
      ensures ImageAt(n, q1, t, j)
    {
      if j < |s1| {
        assert ImageAt(m, q1, s1, j);
      } else {
        assert ImageAt(m, q2, s2, j - |s1|);
      }
    }
  }

  /** TAILQ_CONCAT */
  method Concat(q1: Head, q2: Head, ghost s1: seq<Elem>, ghost s2: seq<Elem>)
    requires Queue(q1, s1) && Queue(q2, s2) && Apart(q1, s1, q2, s2)
    modifies q1, q2, s1, s2
    ensures Queue(q1, s1 + s2) && Queue(q2, [])
  {
    ghost var addrs := Cells(q1, s1) + Cells(q2, s2);
    Both(q1, s1, q2, s2, addrs);
    if q2.first == null {
      assert s1 + s2 == s1;
      return;
    }
    ghost var m := Snap(addrs);
    ghost var n := ConcatWords(q1, q2, q2.first, q1.last, addrs, m);
    Joined(q1, s1, q2, s2, addrs, m, n);
  }

  /** TAILQ_INIT */
  method Init(q: Head, ghost addrs: set<Addr>, ghost m: map<Addr, Pair>) returns (ghost n: map<Addr, Pair>)
    requires m == Snap(addrs) && FirstOf(q) in addrs
    modifies q
    ensures n == Snap(addrs) == m[FirstOf(q) := Pair(null, FirstOf(q))]
  {
    n := Store(FirstOf(q), null, addrs, m);
    n := StoreBack(FirstOf(q), FirstOf(q), addrs, n);
  }

  /** The writes of the concatenation. */
  method ConcatWords(q1: Head, q2: Head, first: Elem, last: Addr, ghost addrs: set<Addr>, ghost m: map<Addr, Pair>)
    returns (ghost n: map<Addr, Pair>)
    requires m == Snap(addrs) && q1 != q2 && q2.first == first && q1.last == last && last != FirstOf(q2)
    requires FirstOf(q1) in addrs && FirstOf(q2) in addrs && NextOf(first) in addrs && last in addrs
    modifies q1, q2, first, Owner(last)
    ensures var joined := SetBack(SetLink(m, last, first), NextOf(first), last);
            n == Snap(addrs) ==
            SetBack(joined, FirstOf(q1), m[FirstOf(q2)].back)[FirstOf(q2) := Pair(null, FirstOf(q2))]
  {
    n := Store(last, first, addrs, m);
    n := StoreBack(NextOf(first), last, addrs, n);
    n := StoreBack(FirstOf(q1), q2.last, addrs, n);
    n := Init(q2, addrs, n);
  }

  lemma Joined(q1: Head, s1: seq<Elem>, q2: Head, s2: seq<Elem>, addrs: set<Addr>,
               m: map<Addr, Pair>, n: map<Addr, Pair>)
    requires Image(m, q1, s1) && Image(m, q2, s2) && s2 != [] && Apart(q1, s1, q2, s2)
    requires addrs == Cells(q1, s1) + Cells(q2, s2)
    requires Snap(addrs) == n == Concatenated(m, q1, s1, q2, s2)
    ensures Queue(q1, s1 + s2) && Queue(q2, [])
  {
    ConcatenatedImage(m, q1, s1, q2, s2);
    Settled(addrs, q1, s1 + s2);
    Settled(addrs, q2, []);
  }

  /** The words of a head that has taken over a queue's elements. */
  ghost function Adopted(m: map<Addr, Pair>, q: Head, from: Head, s: seq<Elem>): map<Addr, Pair>
    requires Image(m, from, s) && FirstOf(q) in m
  {
    assert ImageAt(m, from, s, 0) && ImageAt(m, from, s, |s|);
    if s == [] then m[FirstOf(q) := Pair(null, FirstOf(q))]
    else SetBack(m[FirstOf(q) := m[FirstOf(from)]], NextOf(s[0]), FirstOf(q))
  }

  lemma AdoptedImage(m: map<Addr, Pair>, q: Head, from: Head, s: seq<Elem>)
    requires Image(m, from, s) && FirstOf(q) in m
    ensures Image(Adopted(m, q, from, s), q, s)
  {
    var n := Adopted(m, q, from, s);
    forall j | 0 <= j <= |s|
      ensures ImageAt(n, q, s, j)
    {
      assert ImageAt(m, from, s, j) && ImageAt(m, from, s, 0) && ImageAt(m, from, s, |s|);
    }
  }

  /** TAILQ_SWAP */
  method Swap(q1: Head, q2: Head, ghost s1: seq<Elem>, ghost s2: seq<Elem>)
    requires Queue(q1, s1) && Queue(q2, s2) && Apart(q1, s1, q2, s2)
    modifies q1, q2, s1, s2
    ensures Queue(q1, s2) && Queue(q2, s1)
  {
    ghost var addrs := Cells(q1, s1) + Cells(q2, s2);
    Both(q1, s1, q2, s2, addrs);
    ghost var m := Snap(addrs);
    ghost var n := SwapHeads(q1, q2, addrs, m);
    n := Readopt(q1, addrs, n, s2);
    n := Readopt(q2, addrs, n, s1);
    SwappedImage(m, n, q1, s1, q2, s2);
    Settled(addrs, q1, s2);
    Settled(addrs, q2, s1);
  }

  /** The first part of the swap: the two words of the heads. */
  method SwapHeads(q1: Head, q2: Head, ghost addrs: set<Addr>, ghost m: map<Addr, Pair>)
    returns (ghost n: map<Addr, Pair>)
    requires m == Snap(addrs) && FirstOf(q1) in addrs && FirstOf(q2) in addrs && q1 != q2
    modifies q1, q2
    ensures n == Snap(addrs) == m[FirstOf(q1) := m[FirstOf(q2)]][FirstOf(q2) := m[FirstOf(q1)]]
  {
    var swapFirst, swapLast := q1.first, q1.last;
    n := Store(FirstOf(q1), q2.first, addrs, m);
    n := StoreBack(FirstOf(q1), q2.last, addrs, n);
    n := Store(FirstOf(q2), swapFirst, addrs, n);
    n := StoreBack(FirstOf(q2), swapLast, addrs, n);
  }

  /** The last part of the swap: the first element's back link, or the empty head's. */
  method Readopt(q: Head, ghost addrs: set<Addr>, ghost m: map<Addr, Pair>, ghost s: seq<Elem>)
    returns (ghost n: map<Addr, Pair>)
    requires m == Snap(addrs) && FirstOf(q) in addrs && m[FirstOf(q)].link == ElemAt(s, 0) && Holder(q, s, 0) in addrs
    modifies q, s
    ensures n == Snap(addrs) == SetBack(m, Holder(q, s, 0), FirstOf(q))
  {
    assert q.first == m[FirstOf(q)].link;
    var first := q.first;
    n := StoreBack(if first != null then NextOf(first) else FirstOf(q), FirstOf(q), addrs, m);
  }

  lemma SwappedImage(m: map<Addr, Pair>, n: map<Addr, Pair>, q1: Head, s1: seq<Elem>, q2: Head, s2: seq<Elem>)
    requires Image(m, q1, s1) && Image(m, q2, s2) && Apart(q1, s1, q2, s2)
    requires FirstOf(q1) in m && FirstOf(q2) in m && Holder(q1, s2, 0) in m && Holder(q2, s1, 0) in m
    requires n == SetBack(SetBack(m[FirstOf(q1) := m[FirstOf(q2)]][FirstOf(q2) := m[FirstOf(q1)]],
                                  Holder(q1, s2, 0), FirstOf(q1)), Holder(q2, s1, 0), FirstOf(q2))
    ensures Image(n, q1, s2) && Image(n, q2, s1)
  {
    AdoptedImage(m, q1, q2, s2);
    AdoptedImage(m, q2, q1, s1);
    assert ImageAt(m, q1, s1, 0) && ImageAt(m, q2, s2, 0) && ImageAt(m, q1, s1, |s1|) && ImageAt(m, q2, s2, |s2|);
    forall a | a in Cells(q1, s2)
      ensures a in n && n[a] == Adopted(m, q1, q2, s2)[a]
    {
      if a.NextOf? {
        OwnCell(m, q2, s2, a);
      }
    }
    forall a | a in Cells(q2, s1)
      ensures a in n && n[a] == Adopted(m, q2, q1, s1)[a]
    {
      if a.NextOf? {
        OwnCell(m, q1, s1, a);
      }
    }
    ImageFrame(Adopted(m, q1, q2, s2), n, q1, s2);
    ImageFrame(Adopted(m, q2, q1, s1), n, q2, s1);
  }

  lemma OwnCell(m: map<Addr, Pair>, q: Head, s: seq<Elem>, a: Addr)
    requires Image(m, q, s) && a.NextOf? && a.elem in s
    ensures a in m
  {
    var i :| 0 <= i < |s| && s[i] == a.elem;
    assert ImageAt(m, q, s, i);
  }

  // ---------- walking ----------

  /** TAILQ_FOREACH */
  method ForEach(q: Head, ghost s: seq<Elem>) returns (visited: seq<Elem>)
    requires Queue(q, s)
    ensures visited == s
  {
    visited := [];
    var e := q.first;
    assert ImageAt(Snap(Cells(q, s)), q, s, 0);
    while e != null
      invariant |visited| <= |s| && visited == s[..|visited|] && e == ElemAt(s, |visited|)
      decreases |s| - |visited|
    {
      assert ImageAt(Snap(Cells(q, s)), q, s, |visited| + 1);
      visited := visited + [e];
      e := e.next;
    }
  }

  /** TAILQ_LAST */
  method Last(q: Head, ghost s: seq<Elem>) returns (e: Elem?)
    requires Queue(q, s)
    ensures e == if s == [] then null else s[|s| - 1]
  {
    Behind(q, s, |s|);
    e := Deref(Second(q.last));
  }

  /** TAILQ_PREV */
  method Prev(elm: Elem, ghost q: Head, ghost s: seq<Elem>, ghost i: nat) returns (e: Elem?)
    requires Queue(q, s) && i < |s| && s[i] == elm
    ensures e == if i == 0 then null else s[i - 1]
  {
    Behind(q, s, i);
    e := Deref(Second(elm.prev));
  }

  /** Read as a head, the pair at a link's address leads one element back. */
  lemma Behind(q: Head, s: seq<Elem>, i: nat)
    requires Queue(q, s) && i <= |s|
    ensures Place(q, s, i) == if i < |s| then s[i].prev else q.last
    ensures Second(Place(q, s, i)) == Place(q, s, if i == 0 then |s| else i - 1)
    ensures Deref(Second(Place(q, s, i))) == if i == 0 then null else s[i - 1]
  {
    var m, n := Snap(Cells(q, s)), |s|;
    assert ImageAt(m, q, s, i) && ImageAt(m, q, s, n);
    assert i > 0 ==> ImageAt(m, q, s, i - 1);
  }

  function Reversed(s: seq<Elem>): seq<Elem> {
    if s == [] then [] else Reversed(s[1..]) + [s[0]]
  }

  /** TAILQ_FOREACH_REVERSE: the elements of TAILQ_FOREACH, backwards. */
  method ForEachReverse(q: Head, ghost s: seq<Elem>) returns (visited: seq<Elem>)
    requires Queue(q, s)
    ensures visited == Reversed(s)
  {
    visited := [];
    var e := Last(q, s);
    ghost var i := |s|;
    assert s[i..] == [];
    while e != null
      invariant i <= |s| && visited == Reversed(s[i..])
      invariant e == if i == 0 then null else s[i - 1]
      decreases i
    {
      i := i - 1;
      assert s[i..][1..] == s[i + 1..];
      visited := visited + [e];
      e := Prev(e, q, s, i);
    }
    assert s[0..] == s;
  }

  /** Saving the next element and removing the first. */
  method TakeFirst(q: Head, e: Elem, ghost s: seq<Elem>, ghost all: set<Elem>) returns (next: Elem?)
    requires Queue(q, s) && s != [] && e == s[0] && forall i :: 0 <= i < |s| ==> s[i] in all
    modifies q, all
    ensures Queue(q, s[1..]) && next == ElemAt(s, 1)
  {
    assert ImageAt(Snap(Cells(q, s)), q, s, 1);
    next := e.next;
    Ends(s, e);
    Remove(q, e, s, 0);
  }

  lemma Shift(visited: seq<Elem>, rest: seq<Elem>)
    requires rest != []
    ensures visited + rest == (visited + [rest[0]]) + rest[1..]
  {
  }

  /** TAILQ_FOREACH_SAFE with TAILQ_REMOVE on each element, as xh_core_clear empties its queues. */
  method Clear(q: Head, ghost s: seq<Elem>) returns (visited: seq<Elem>)
    requires Queue(q, s)
    modifies q, s
    ensures visited == s && Queue(q, [])
  {
    visited := [];
    assert ImageAt(Snap(Cells(q, s)), q, s, 0);
    ghost var rest, all := s, set i | 0 <= i < |s| :: s[i];
    var e := q.first;
    while e != null
      invariant visited + rest == s && Queue(q, rest) && e == ElemAt(rest, 0)
      invariant forall i :: 0 <= i < |rest| ==> rest[i] in all
      decreases |rest|
    {
      Shift(visited, rest);
      var next := TakeFirst(q, e, rest, all);
      visited := visited + [e];
      rest := rest[1..];
      e := next;
    }
  }
}
