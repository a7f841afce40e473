/** Memory protections in `xh_util.c`: reading them from the process's mappings, and the pages to change. */
module MemProtect {
  import opened Bits

  const XH_ERRNO_BADMAPS: int := 1006
  const XH_ERRNO_SEGVERR: int := 1009

  datatype Perm = R | W | X

  /** A parsed line of the mapping list; `named` tells whether the line contains the wanted path. */
  datatype Mapping = Mapping(start: nat, end: nat, perms: set<Perm>, isPrivate: bool, named: bool)

  /** The mappings that are looked at: private ones, and with a path only those that name it. */
  predicate Eligible(m: Mapping, filtered: bool) {
    m.isPrivate && (filtered ==> m.named)
  }

  ghost predicate SortedDisjoint(maps: seq<Mapping>) {
    && (forall i :: 0 <= i < |maps| ==> maps[i].start < maps[i].end)
    && (forall i, j :: 0 <= i < j < |maps| ==> maps[i].end <= maps[j].start)
  }

  predicate Contains(m: Mapping, a: nat) {
    m.start <= a < m.end
  }

  predicate Overlaps(m: Mapping, lo: nat, hi: nat) {
    m.start < hi && lo < m.end
  }

  ghost predicate InMap(maps: seq<Mapping>, filtered: bool, a: nat) {
    exists i :: 0 <= i < |maps| && Eligible(maps[i], filtered) && Contains(maps[i], a)
  }

  /** Every byte of the range is in some eligible mapping. */
  ghost predicate Covered(maps: seq<Mapping>, filtered: bool, lo: nat, hi: nat) {
    forall a: nat :: lo <= a < hi ==> InMap(maps, filtered, a)
  }

  ghost predicate AllPermit(maps: seq<Mapping>, filtered: bool, lo: nat, hi: nat, p: Perm) {
    forall i :: 0 <= i < |maps| && Eligible(maps[i], filtered) && Overlaps(maps[i], lo, hi) ==> p in maps[i].perms
  }

  /** `prot` is what all eligible mappings that touch the range permit. */
  ghost predicate Intersection(maps: seq<Mapping>, filtered: bool, lo: nat, hi: nat, prot: set<Perm>) {
    forall p: Perm :: p in prot <==> AllPermit(maps, filtered, lo, hi, p)
  }

  /**
   Where the range that is really checked ends: `addr + len`, but only behind the first byte when
   `len` is 0 or the sum wraps around the address space of `w` bits.
   */
  function CheckedEnd(addr: nat, len: nat, w: nat): nat {
    if len == 0 || addr + len >= Pow2(w) then addr + 1 else addr + len
  }

  lemma WrappedEnd(addr: nat, len: nat, w: nat)
    requires addr < Pow2(w) && len < Pow2(w)
    ensures var end := (addr + len) % Pow2(w);
            if len == 0 || addr + len >= Pow2(w) then end <= addr else end == addr + len
  {
    if addr + len >= Pow2(w) {
      DivModUnique(addr + len, Pow2(w), 1, addr + len - Pow2(w));
    } else {
      DivModUnique(addr + len, Pow2(w), 0, addr + len);
    }
  }

  /** The loop's invariant: `lo` up to `start` is covered, and no mapping so far has the byte at `start`. */
  ghost predicate Progress(maps: seq<Mapping>, filtered: bool, lo: nat, start: nat, load0: bool, prot: set<Perm>) {
    && (if load0 then start == lo && prot == {} else lo < start && Intersection(maps, filtered, lo, start, prot))
    && Covered(maps, filtered, lo, start) && !InMap(maps, filtered, start)
  }

  lemma InMapSnoc(maps: seq<Mapping>, filtered: bool, m: Mapping, a: nat)
    ensures InMap(maps + [m], filtered, a) <==> InMap(maps, filtered, a) || (Eligible(m, filtered) && Contains(m, a))
  {
    var all := maps + [m];
    assert all[|maps|] == m;
    if InMap(maps, filtered, a) {
      var i :| 0 <= i < |maps| && Eligible(maps[i], filtered) && Contains(maps[i], a);
      assert all[i] == maps[i];
    }
  }

  lemma AllPermitSnoc(maps: seq<Mapping>, filtered: bool, m: Mapping, lo: nat, hi: nat, p: Perm)
    ensures AllPermit(maps + [m], filtered, lo, hi, p) <==>
            AllPermit(maps, filtered, lo, hi, p) && (Eligible(m, filtered) && Overlaps(m, lo, hi) ==> p in m.perms)
  {
    var all := maps + [m];
    assert all[|maps|] == m;
    forall i | 0 <= i < |maps|
      ensures all[i] == maps[i]
    {
    }
  }

  lemma CoveredSnoc(maps: seq<Mapping>, filtered: bool, m: Mapping, lo: nat, hi: nat)
    requires Covered(maps, filtered, lo, hi)
    ensures Covered(maps + [m], filtered, lo, hi)
  {
    forall a: nat | lo <= a < hi
      ensures InMap(maps + [m], filtered, a)
    {
      InMapSnoc(maps, filtered, m, a);
    }
  }

  /** A later mapping begins behind all bytes covered so far. */
  lemma LaterBehind(maps: seq<Mapping>, filtered: bool, m: Mapping, a: nat)
    requires SortedDisjoint(maps + [m]) && InMap(maps, filtered, a)
    ensures a < m.start
  {
    var i :| 0 <= i < |maps| && Eligible(maps[i], filtered) && Contains(maps[i], a);
    var all := maps + [m];
    assert all[i] == maps[i] && all[|maps|] == m;
    assert all[i].end <= all[|maps|].start;
  }

  /** A mapping that does not contain the address sought leaves everything as it is. */
  lemma SkipMapping(maps: seq<Mapping>, filtered: bool, lo: nat, start: nat, load0: bool, prot: set<Perm>, m: Mapping)
    requires SortedDisjoint(maps + [m]) && Progress(maps, filtered, lo, start, load0, prot)
    requires !(Eligible(m, filtered) && Contains(m, start))
    ensures Progress(maps + [m], filtered, lo, start, load0, prot)
  {
    CoveredSnoc(maps, filtered, m, lo, start);
    InMapSnoc(maps, filtered, m, start);
    if !load0 {
      LaterBehind(maps, filtered, m, start - 1);
      forall p: Perm
        ensures p in prot <==> AllPermit(maps + [m], filtered, lo, start, p)
      {
        AllPermitSnoc(maps, filtered, m, lo, start, p);
      }
    }
  }

  /** Between the bytes covered and a mapping that continues them nothing else overlaps. */
  lemma NothingBetween(maps: seq<Mapping>, filtered: bool, lo: nat, start: nat, m: Mapping, p: Perm)
    requires SortedDisjoint(maps + [m]) && Contains(m, start)
    ensures AllPermit(maps, filtered, lo, m.end, p) <==> AllPermit(maps, filtered, lo, start, p)
    ensures lo == start ==> AllPermit(maps, filtered, lo, start, p)
  {
    var all := maps + [m];
    forall i | 0 <= i < |maps|
      ensures maps[i].start < maps[i].end <= m.start
    {
      assert all[i] == maps[i] && all[|maps|] == m;
      assert all[i].end <= all[|maps|].start;
    }
    forall i | 0 <= i < |maps|
      ensures Overlaps(maps[i], lo, m.end) <==> Overlaps(maps[i], lo, start)
    {
    }
  }

  /** A mapping that does contain it takes the coverage to its own end. */
  lemma TakeMapping(maps: seq<Mapping>, filtered: bool, lo: nat, start: nat, load0: bool, prot: set<Perm>, m: Mapping)
    requires SortedDisjoint(maps + [m]) && Progress(maps, filtered, lo, start, load0, prot) && lo <= start
    requires Eligible(m, filtered) && Contains(m, start)
    ensures Progress(maps + [m], filtered, lo, m.end, false, if load0 then m.perms else prot * m.perms)
  {
    var all := maps + [m];
    CoveredSnoc(maps, filtered, m, lo, start);
    forall a: nat | start <= a < m.end
      ensures InMap(all, filtered, a)
    {
      InMapSnoc(maps, filtered, m, a);
    }
    InMapSnoc(maps, filtered, m, m.end);
    if InMap(maps, filtered, m.end) {
      LaterBehind(maps, filtered, m, m.end);
    }
    forall p: Perm
      ensures p in (if load0 then m.perms else prot * m.perms) <==> AllPermit(all, filtered, lo, m.end, p)
    {
      AllPermitSnoc(maps, filtered, m, lo, m.end, p);
      NothingBetween(maps, filtered, lo, start, m, p);
    }
  }

  lemma InMapPrefix(maps: seq<Mapping>, n: nat, filtered: bool, a: nat)
    requires n <= |maps| && InMap(maps[..n], filtered, a)
    ensures InMap(maps, filtered, a)
  {
    var i :| 0 <= i < n && Eligible(maps[..n][i], filtered) && Contains(maps[..n][i], a);
    assert maps[i] == maps[..n][i];
  }

  /** When a mapping reaches the end of the range, the mappings behind it say nothing about the range. */
  lemma PermitPrefix(maps: seq<Mapping>, n: nat, filtered: bool, lo: nat, hi: nat, p: Perm)
    requires SortedDisjoint(maps) && 0 < n <= |maps| && lo < hi <= maps[n - 1].end && maps[n - 1].start < hi
    ensures AllPermit(maps[..n], filtered, lo, maps[n - 1].end, p) <==> AllPermit(maps, filtered, lo, hi, p)
  {
    forall i | 0 <= i < |maps|
      ensures Overlaps(maps[i], lo, hi) <==> i < n && Overlaps(maps[i], lo, maps[n - 1].end)
    {
      assert i < n - 1 ==> maps[i].end <= maps[n - 1].start;
      assert i >= n ==> maps[n - 1].end <= maps[i].start;
    }
    forall i | 0 <= i < n
      ensures maps[..n][i] == maps[i]
    {
    }
  }

  /** The coverage has reached the end of the range. */
  lemma Finished(maps: seq<Mapping>, n: nat, filtered: bool, lo: nat, hi: nat, prot: set<Perm>)
    requires SortedDisjoint(maps) && 0 < n <= |maps| && lo < hi <= maps[n - 1].end && maps[n - 1].start < hi
    requires Progress(maps[..n], filtered, lo, maps[n - 1].end, false, prot)
    ensures Covered(maps, filtered, lo, hi) && Intersection(maps, filtered, lo, hi, prot)
  {
    forall a: nat | lo <= a < hi
      ensures InMap(maps, filtered, a)
    {
      InMapPrefix(maps, n, filtered, a);
    }
    forall p: Perm
      ensures p in prot <==> AllPermit(maps, filtered, lo, hi, p)
    {
      PermitPrefix(maps, n, filtered, lo, hi, p);
    }
  }

  /**
   xh_util_get_mem_protect, with the mappings as parsed records (none if the list cannot be opened):
   it succeeds exactly when the checked range is covered, and then gives the intersection.
   */
  method GetMemProtect(readable: bool, maps: seq<Mapping>, filtered: bool, addr: nat, len: nat, w: nat)
    returns (r: int, prot: set<Perm>)
    requires SortedDisjoint(maps) && addr < Pow2(w) && len < Pow2(w)
    ensures !readable ==> r == XH_ERRNO_BADMAPS && prot == {}
    ensures readable ==> r == if Covered(maps, filtered, addr, CheckedEnd(addr, len, w)) then 0 else XH_ERRNO_SEGVERR
    ensures r == 0 ==> Intersection(maps, filtered, addr, CheckedEnd(addr, len, w), prot)
  {
    prot := {};
    if !readable {
      return XH_ERRNO_BADMAPS, prot;
    }
    var startAddr: nat, endAddr := addr, (addr + len) % Pow2(w);
    WrappedEnd(addr, len, w);
    ghost var hi := CheckedEnd(addr, len, w);
    var load0 := true;
    var i := 0;
    while i < |maps|
      invariant i <= |maps| && addr <= startAddr < hi && Progress(maps[..i], filtered, addr, startAddr, load0, prot)
    {
      var m := maps[i];
      PrefixSorted(maps, i);
      if !Eligible(m, filtered) || !(startAddr >= m.start && startAddr < m.end) {
        SkipMapping(maps[..i], filtered, addr, startAddr, load0, prot, m);
      } else {
        TakeMapping(maps[..i], filtered, addr, startAddr, load0, prot, m);
        if load0 {
          prot := AddPerms(prot, m.perms);
          load0 := false;
        } else {
          prot := DropPerms(prot, m.perms);
        }
        if endAddr <= m.end {
          Finished(maps, i + 1, filtered, addr, hi, prot);
          return 0, prot;
        }
        startAddr := m.end;
      }
      i := i + 1;
    }
    assert maps[..i] == maps;
    assert !InMap(maps, filtered, startAddr);
    r := XH_ERRNO_SEGVERR;
  }

  /**
   What success means: that the whole range is covered, except for an empty range and one that reaches the
   end of the address space; there it is that the first byte is mapped, even if the rest cannot be.
   */
  lemma CheckMeans(maps: seq<Mapping>, filtered: bool, addr: nat, len: nat, w: nat)
    requires forall i :: 0 <= i < |maps| ==> maps[i].end <= Pow2(w)
    ensures Covered(maps, filtered, addr, CheckedEnd(addr, len, w)) <==>
            if len == 0 || addr + len >= Pow2(w) then InMap(maps, filtered, addr)
            else Covered(maps, filtered, addr, addr + len)
    ensures addr <= Pow2(w) < addr + len ==> !Covered(maps, filtered, addr, addr + len)
  {
    if addr <= Pow2(w) < addr + len {
      assert !InMap(maps, filtered, Pow2(w));
    }
  }

  /** Which bytes count as mapped: those of private mappings, and with a path only of mappings that name it. */
  lemma InMapMeans(maps: seq<Mapping>, filtered: bool, a: nat)
    ensures InMap(maps, filtered, a) <==>
      exists i :: 0 <= i < |maps| && maps[i].isPrivate && (maps[i].named || !filtered)
        && maps[i].start <= a && a < maps[i].end
  {
    forall i | 0 <= i < |maps|
      ensures Eligible(maps[i], filtered) && Contains(maps[i], a) <==>
              && maps[i].isPrivate && (maps[i].named || !filtered) && maps[i].start <= a && a < maps[i].end
    {
    }
  }

  /** What is mapped shared, or under another path than the wanted one, is refused. */
  lemma OthersRefused(maps: seq<Mapping>, filtered: bool, addr: nat, len: nat, w: nat)
    requires forall i :: 0 <= i < |maps| && maps[i].start <= addr < maps[i].end ==>
               !maps[i].isPrivate || (filtered && !maps[i].named)
    ensures !Covered(maps, filtered, addr, CheckedEnd(addr, len, w))
  {
    InMapMeans(maps, filtered, addr);
  }

  /** A byte that is mapped has this permission. */
  ghost predicate Permits(maps: seq<Mapping>, filtered: bool, a: nat, p: Perm) {
    forall i :: 0 <= i < |maps| && maps[i].isPrivate && (filtered ==> maps[i].named) && maps[i].start <= a < maps[i].end
      ==> p in maps[i].perms
  }

  /** The permissions given are those that every byte of the range has. */
  lemma IntersectionMeans(maps: seq<Mapping>, filtered: bool, lo: nat, hi: nat, prot: set<Perm>, p: Perm)
    requires SortedDisjoint(maps) && Intersection(maps, filtered, lo, hi, prot) && lo < hi
    ensures p in prot <==> forall a: nat :: lo <= a < hi ==> Permits(maps, filtered, a, p)
  {
    if p !in prot {
      var i :| 0 <= i < |maps| && Eligible(maps[i], filtered) && Overlaps(maps[i], lo, hi) && p !in maps[i].perms;
      assert !Permits(maps, filtered, if maps[i].start < lo then lo else maps[i].start, p);
    }
  }

  /** A range that wraps: one mapped byte makes the call succeed although the byte behind it is not mapped. */
  lemma UncoveredRange(w: nat)
    requires w > 1
    ensures var addr := Pow2(w) - 2;
            var maps := [Mapping(addr, addr + 1, {R}, true, true)];
            && SortedDisjoint(maps) && maps[0].end <= Pow2(w)
            && Covered(maps, false, addr, CheckedEnd(addr, 2, w))
            && !InMap(maps, false, addr + 1) && !Covered(maps, false, addr, addr + 2)
  {
    var addr := Pow2(w) - 2;
    var maps := [Mapping(addr, addr + 1, {R}, true, true)];
    assert Eligible(maps[0], false) && Contains(maps[0], addr);
    assert !InMap(maps, false, addr + 1);
  }

  lemma PrefixSorted(maps: seq<Mapping>, i: nat)
    requires SortedDisjoint(maps) && i < |maps|
    ensures maps[..i + 1] == maps[..i] + [maps[i]] && SortedDisjoint(maps[..i + 1])
  {
  }

  /** The first mapping's bits are ORed in. */
  method AddPerms(prot: set<Perm>, perms: set<Perm>) returns (r: set<Perm>)
    ensures r == prot + perms
  {
    r := prot;
    if R in perms {
      r := r + {R};
    }
    if W in perms {
      r := r + {W};
    }
    if X in perms {
      r := r + {X};
    }
    forall p: Perm
      ensures p in r <==> p in prot + perms
    {
      match p
      case R =>
      case W =>
      case X =>
    }
  }

  /** The bits a further mapping lacks are cleared. */
  method DropPerms(prot: set<Perm>, perms: set<Perm>) returns (r: set<Perm>)
    ensures r == prot * perms
  {
    r := prot;
    if R !in perms {
      r := r - {R};
    }
    if W !in perms {
      r := r - {W};
    }
    if X !in perms {
      r := r - {X};
    }
    forall p: Perm
      ensures p in r <==> p in prot * perms
    {
      match p
      case R =>
      case W =>
      case X =>
    }
  }

  // ---------- pages ----------

  /** PAGE_MASK, for pages of 2^k bytes. */
  function PageMask(k: nat, w: nat): nat
    requires k <= w
  {
    Pow2Monotone(k, w);
    Pow2(w) - Pow2(k)
  }

  function PageStart(addr: nat, k: nat, w: nat): nat
    requires k <= w
  {
    BitAnd(addr, PageMask(k, w))
  }

  /** The end of the pages of the `n` bytes at `addr`, in wrapping arithmetic. */
  function PageEnd(addr: nat, n: nat, k: nat, w: nat): nat
    requires k <= w && n > 0
  {
    Remainder(PageStart(Remainder(addr + n - 1, Pow2(w)), k, w) + Pow2(k), Pow2(w))
  }

  function PageCover(addr: nat, n: nat, k: nat, w: nat): nat
    requires k <= w && n > 0 && addr < Pow2(w)
  {
    MaskBelow(addr, k, w);
    Remainder(PageEnd(addr, n, k, w) + Pow2(w) - PageStart(addr, k, w), Pow2(w))
  }

  lemma {:induction false} AndZero(a: nat)
    ensures BitAnd(a, 0) == 0
  {
    if a == 0 {
    } else {
      AndZero(a / 2);
    }
  }

  lemma AndHalves(a: nat, b: nat)
    ensures BitAnd(a, b) == (if a % 2 == 1 && b % 2 == 1 then 1 else 0) + 2 * BitAnd(a / 2, b / 2)
  {
    if a == 0 && b == 0 {
      AndZero(0);
    }
  }

  /** Masking with 2^w - 1 keeps a word. */
  lemma {:induction false} AndOnes(a: nat, w: nat)
    requires a < Pow2(w)
    ensures BitAnd(a, Pow2(w) - 1) == a
  {
    if w == 0 {
      AndZero(0);
    } else {
      assert (Pow2(w) - 1) / 2 == Pow2(w - 1) - 1 && (Pow2(w) - 1) % 2 == 1;
      AndHalves(a, Pow2(w) - 1);
      AndOnes(a / 2, w - 1);
    }
  }

  predicate Aligned(x: nat, page: nat)
    requires page > 0
  {
    Remainder(x, page) == 0
  }

  lemma MaskBelow(a: nat, k: nat, w: nat)
    requires k <= w && a < Pow2(w)
    ensures PageStart(a, k, w) < Pow2(w)
  {
    MaskRounds(a, k, w);
  }

  /** Masking rounds down to a multiple of the page size. */
  lemma {:induction false} MaskRounds(a: nat, k: nat, w: nat)
    requires k <= w && a < Pow2(w)
    ensures PageStart(a, k, w) <= a < PageStart(a, k, w) + Pow2(k)
    ensures Aligned(PageStart(a, k, w), Pow2(k))
  {
    if k == 0 {
      AndOnes(a, w);
    } else {
      MaskHalves(a, k, w);
      MaskRounds(a / 2, k - 1, w - 1);
      RoundStep(a, PageStart(a / 2, k - 1, w - 1), Pow2(k - 1));
    }
  }

  lemma MaskHalves(a: nat, k: nat, w: nat)
    requires 0 < k <= w
    ensures PageStart(a, k, w) == 2 * PageStart(a / 2, k - 1, w - 1)
  {
    assert PageMask(k, w) == 2 * PageMask(k - 1, w - 1);
    AndHalves(a, PageMask(k, w));
  }

  lemma RoundStep(a: nat, half: nat, p: nat)
    requires p > 0 && half <= a / 2 < half + p && Aligned(half, p)
    ensures 2 * half <= a < 2 * half + 2 * p && Aligned(2 * half, 2 * p)
  {
    AlignedDouble(half, p);
  }

  lemma {:induction false} AlignedDouble(x: nat, p: nat)
    requires p > 0 && Aligned(x, p)
    ensures Aligned(2 * x, 2 * p)
  {
    if x < p {
    } else {
      AlignedDouble(x - p, p);
      assert 2 * (x - p) == 2 * x - 2 * p;
    }
  }

  /** Multiples of the page size are at least a page apart. */
  lemma {:induction false} PageApart(x: nat, y: nat, p: nat)
    requires p > 0 && Aligned(x, p) && Aligned(y, p)
    ensures x < y ==> x + p <= y
  {
    if x >= p && y >= p {
      PageApart(x - p, y - p, p);
    }
  }

  lemma {:induction false} AlignedDifference(x: nat, y: nat, p: nat)
    requires p > 0 && Aligned(x, p) && Aligned(y, p) && x <= y
    ensures Aligned(y - x, p)
  {
    if x < p {
    } else {
      AlignedDifference(x - p, y - p, p);
      assert (y - p) - (x - p) == y - x;
    }
  }

  /**
   The range given to mprotect is the least page-aligned range that holds the `n` bytes at `addr`,
   also at the very end of the address space, where PAGE_END itself wraps to 0.
   */
  lemma CoverIsLeast(addr: nat, n: nat, k: nat, w: nat)
    requires k + 1 < w && 0 < n <= Pow2(k) && addr + n <= Pow2(w)
    ensures var start, cover, page := PageStart(addr, k, w), PageCover(addr, n, k, w), Pow2(k);
            && Aligned(start, page) && Aligned(cover, page)
            && start <= addr && addr + n <= start + cover
            && (forall s: nat, e: nat ::
                  Aligned(s, page) && Aligned(e, page) && s <= addr && addr + n <= e ==>
                  s <= start && start + cover <= e)
  {
    MaskRounds(addr, k, w);
    MaskRounds(addr + n - 1, k, w);
    CoverValue(addr, n, k, w, PageStart(addr, k, w), PageStart(addr + n - 1, k, w));
    LeastPages(PageStart(addr, k, w), PageStart(addr + n - 1, k, w), Pow2(k), addr, n);
  }

  lemma CoverUnfolds(addr: nat, n: nat, k: nat, w: nat)
    requires k <= w && 0 < n && addr + n <= Pow2(w)
    ensures var start, tail, m := PageStart(addr, k, w), PageStart(addr + n - 1, k, w), Pow2(w);
            start < m && PageCover(addr, n, k, w) == Remainder(Remainder(tail + Pow2(k), m) + m - start, m)
  {
    MaskBelow(addr, k, w);
    assert Remainder(addr + n - 1, Pow2(w)) == addr + n - 1;
  }

  /** From the first page to behind the last: no information is lost to the wrap. */
  lemma CoverValue(addr: nat, n: nat, k: nat, w: nat, start: nat, tail: nat)
    requires k + 1 < w && 0 < n <= Pow2(k) && addr + n <= Pow2(w)
    requires start == PageStart(addr, k, w) && tail == PageStart(addr + n - 1, k, w)
    ensures tail + Pow2(k) >= start && PageCover(addr, n, k, w) == tail + Pow2(k) - start
    ensures Aligned(tail + Pow2(k) - start, Pow2(k))
  {
    var page, m := Pow2(k), Pow2(w);
    PageFacts(addr, k, w, start, page, m);
    PageFacts(addr + n - 1, k, w, tail, page, m);
    CoverUnfolds(addr, n, k, w);
    CoverParts(start, tail, page, m, addr, n);
  }

  lemma PageFacts(addr: nat, k: nat, w: nat, start: nat, page: nat, m: nat)
    requires k + 1 < w && addr < m && start == PageStart(addr, k, w) && page == Pow2(k) && m == Pow2(w)
    ensures page > 0 && Aligned(start, page) && start <= addr < start + page
    ensures Aligned(m, page) && m >= 4 * page
  {
    MaskRounds(addr, k, w);
    ManyPages(k, w);
    AlignedWord(k, w);
  }

  lemma CoverParts(start: nat, tail: nat, page: nat, m: nat, addr: nat, n: nat)
    requires page > 0 && Aligned(start, page) && Aligned(tail, page) && Aligned(m, page) && m >= 4 * page
    requires start <= addr < start + page && tail <= addr + n - 1 < tail + page
    requires 0 < n <= page && addr + n <= m
    ensures tail + page >= start && Aligned(tail + page - start, page)
    ensures Remainder(Remainder(tail + page, m) + m - start, m) == tail + page - start
  {
    PageApart(tail, start, page);
    AlignedDifference(start, tail + page, page);
    PageApart(tail, m, page);
    WrapLost(tail + page, start, m);
  }

  lemma WrapLost(end: nat, start: nat, m: nat)
    requires start <= end <= m && end - start < m
    ensures Remainder(Remainder(end, m) + m - start, m) == end - start
  {
    if end == m {
      assert Remainder(m, m) == Remainder(0, m) == 0;
    } else {
      assert Remainder(end + m - start, m) == Remainder(end - start, m);
    }
  }

  lemma {:induction false} AlignedWord(k: nat, w: nat)
    requires k <= w
    ensures Aligned(Pow2(w), Pow2(k))
  {
    if k > 0 {
      AlignedWord(k - 1, w - 1);
      AlignedDouble(Pow2(w - 1), Pow2(k - 1));
    } else {
      AlignedOne(Pow2(w));
    }
  }

  lemma {:induction false} AlignedOne(x: nat)
    ensures Aligned(x, 1)
  {
    if x == 0 {
    } else {
      AlignedOne(x - 1);
    }
  }

  lemma ManyPages(k: nat, w: nat)
    requires k + 1 < w
    ensures Pow2(w) >= 4 * Pow2(k)
  {
    Pow2Monotone(k + 2, w);
  }

  lemma LeastPages(start: nat, tail: nat, page: nat, addr: nat, n: nat)
    requires page > 0 && Aligned(start, page) && Aligned(tail, page) && n > 0
    requires addr < start + page && tail <= addr + n - 1
    ensures forall s: nat, e: nat ::
              Aligned(s, page) && Aligned(e, page) && s <= addr && addr + n <= e ==> s <= start && tail + page <= e
  {
    forall s: nat, e: nat | Aligned(s, page) && Aligned(e, page) && s <= addr && addr + n <= e
      ensures s <= start && tail + page <= e
    {
      PageApart(start, s, page);
      PageApart(tail, e, page);
    }
  }
}
