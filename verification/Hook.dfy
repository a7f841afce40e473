/** `xh_elf_hook` of `xh_elf.c`: symbol lookup, three relocation tables, one update of memory. */
module Hook {
  import opened Bits
  import opened CString
  import opened Options
  import opened Sleb128
  import opened PackedRelocs
  import opened SymbolLookup

  const XH_ERRNO_INVAL: int := 1002
  const XH_ERRNO_FORMAT: int := 1007
  const XH_ERRNO_ELFINIT: int := 1008

  const PROT_READ_WRITE: int := 3

  /** What the kernel says of a page's protection: an error, or the bits. */
  datatype Protection = Denied(code: Errno) | Granted(bits: int)

  type Errno = c: int | c != 0 witness 1

  /**
   What an initialised `xh_elf_t` says. The symbol and the type are the high and low parts of a
   relocation's info, split at bit `symShift`. `android` is the packed table after its `APS2` magic.
   `getProtect` and `setProtect` are what reading and widening the protection of a word's page return.
   */
  datatype Elf = Elf(
    inited: bool, w: nat, bias: nat, base: nat, isUseRela: bool, table: Table,
    symShift: nat, jumpSlot: nat, globDat: nat, abs: nat,
    relplt: seq<Reloc>, reldyn: seq<Reloc>, android: seq<Byte>, hasAndroid: bool,
    getProtect: nat -> Protection, setProtect: nat -> int)

  // ---------- memory ----------

  /** The words of the process, by address; no access faults. */
  class Memory {
    var words: map<nat, nat>
  }

  /** Where `old_func` points. */
  class Cell {
    var value: nat
  }

  function Read(words: map<nat, nat>, a: nat): nat {
    if a in words then words[a] else 0
  }

  // ---------- which words ----------

  predicate Matches(elf: Elf, isPlt: bool, symidx: nat, r: Reloc) {
    var sym, kind := r.info / Pow2(elf.symShift), r.info % Pow2(elf.symShift);
    sym == symidx && if isPlt then kind == elf.jumpSlot else kind == elf.globDat || kind == elf.abs
  }

  function Slot(elf: Elf, r: Reloc): nat {
    (elf.bias + r.offset) % Pow2(elf.w)
  }

  /** The words a table names for the symbol, in order. */
  function Slots(elf: Elf, isPlt: bool, symidx: nat, rs: seq<Reloc>): seq<nat> {
    if rs == [] then []
    else if Matches(elf, isPlt, symidx, rs[0]) then [Slot(elf, rs[0])] + Slots(elf, isPlt, symidx, rs[1..])
    else Slots(elf, isPlt, symidx, rs[1..])
  }

  function First(slots: seq<nat>): seq<nat> {
    if slots == [] then [] else [slots[0]]
  }

  /** The first matching PLT slot, then all the others. */
  function Targets(elf: Elf, symidx: nat, android: seq<Reloc>): seq<nat> {
    First(Slots(elf, true, symidx, elf.relplt)) +
      (Slots(elf, false, symidx, elf.reldyn) + Slots(elf, false, symidx, android))
  }

  /** A relocation of the symbol with one of two types: its info splits into them at bit `symShift`. */
  predicate Concerns(elf: Elf, symidx: nat, kind: nat, other: nat, r: Reloc) {
    && r.info / Pow2(elf.symShift) == symidx
    && (r.info % Pow2(elf.symShift) == kind || r.info % Pow2(elf.symShift) == other)
  }

  lemma MatchesMeans(elf: Elf, symidx: nat, r: Reloc)
    ensures Matches(elf, true, symidx, r) <==> Concerns(elf, symidx, elf.jumpSlot, elf.jumpSlot, r)
    ensures Matches(elf, false, symidx, r) <==> Concerns(elf, symidx, elf.globDat, elf.abs, r)
    ensures Slot(elf, r) == (elf.bias + r.offset) % Pow2(elf.w)
  {
  }

  lemma {:induction false} SlotsFrom(elf: Elf, isPlt: bool, symidx: nat, rs: seq<Reloc>, a: nat) returns (k: nat)
    requires a in Slots(elf, isPlt, symidx, rs)
    ensures k < |rs| && Matches(elf, isPlt, symidx, rs[k]) && a == Slot(elf, rs[k])
  {
    if Matches(elf, isPlt, symidx, rs[0]) && a == Slot(elf, rs[0]) {
      k := 0;
    } else {
      var j := SlotsFrom(elf, isPlt, symidx, rs[1..], a);
      k := j + 1;
    }
  }

  lemma {:induction false} SlotsHave(elf: Elf, isPlt: bool, symidx: nat, rs: seq<Reloc>, k: nat)
    requires k < |rs| && Matches(elf, isPlt, symidx, rs[k])
    ensures Slot(elf, rs[k]) in Slots(elf, isPlt, symidx, rs)
  {
    if k == 0 {
    } else {
      SlotsHave(elf, isPlt, symidx, rs[1..], k - 1);
    }
  }

  /** The first word named is that of the first relocation that matches. */
  lemma {:induction false} FirstSlot(elf: Elf, isPlt: bool, symidx: nat, rs: seq<Reloc>, k: nat)
    requires k < |rs| && Matches(elf, isPlt, symidx, rs[k])
    requires forall j :: 0 <= j < k ==> !Matches(elf, isPlt, symidx, rs[j])
    ensures First(Slots(elf, isPlt, symidx, rs)) == [Slot(elf, rs[k])]
  {
    if k == 0 {
    } else {
      assert !Matches(elf, isPlt, symidx, rs[0]);
      FirstSlot(elf, isPlt, symidx, rs[1..], k - 1);
    }
  }

  lemma {:induction false} NoSlot(elf: Elf, isPlt: bool, symidx: nat, rs: seq<Reloc>)
    requires forall j :: 0 <= j < |rs| ==> !Matches(elf, isPlt, symidx, rs[j])
    ensures Slots(elf, isPlt, symidx, rs) == []
  {
    if rs == [] {
    } else {
      NoSlot(elf, isPlt, symidx, rs[1..]);
    }
  }

  // ---------- what happens to them ----------

  /** Memory, `*old_func` and the code returned; a code other than 0 ends the run. */
  datatype State = State(words: map<nat, nat>, saved: nat, code: int)

  /** What getting hold of a word that is to be replaced returns. */
  function Guard(elf: Elf, a: nat): int {
    match elf.getProtect(a)
    case Denied(code) => code
    case Granted(bits) => if bits != PROT_READ_WRITE then elf.setProtect(a) else 0
  }

  function Step(elf: Elf, newFunc: nat, s: State, a: nat): State {
    if s.code != 0 then s
    else if a < elf.base then s.(code := XH_ERRNO_FORMAT)
    else if newFunc == 0 then s.(saved := Read(s.words, a))
    else if Read(s.words, a) == newFunc then s
    else if Guard(elf, a) != 0 then s.(code := Guard(elf, a))
    else State(s.words[a := newFunc], Read(s.words, a), 0)
  }

  function Outcome(elf: Elf, newFunc: nat, s: State, slots: seq<nat>): State
    decreases |slots|
  {
    if slots == [] then s else Outcome(elf, newFunc, Step(elf, newFunc, s, slots[0]), slots[1..])
  }

  ghost predicate Shows(m: Memory, c: Cell?, s: State)
    reads m, c
  {
    m.words == s.words && (c != null ==> c.value == s.saved)
  }

  lemma {:induction false} Stopped(elf: Elf, newFunc: nat, s: State, slots: seq<nat>)
    requires s.code != 0
    ensures Outcome(elf, newFunc, s, slots) == s
    decreases |slots|
  {
    if slots == [] {
    } else {
      Stopped(elf, newFunc, s, slots[1..]);
    }
  }

  lemma {:induction false} RunConcat(elf: Elf, newFunc: nat, s: State, a: seq<nat>, b: seq<nat>)
    ensures Outcome(elf, newFunc, s, a + b) == Outcome(elf, newFunc, Outcome(elf, newFunc, s, a), b)
    decreases |a|
  {
    if a == [] {
      assert a + b == b;
    } else {
      assert (a + b)[1..] == a[1..] + b;
      RunConcat(elf, newFunc, Step(elf, newFunc, s, a[0]), a[1..], b);
    }
  }

  // ---------- the source's functions ----------

  /** xh_elf_replace_function. A failure to restore the old protection is only logged. */
  method ReplaceFunction(elf: Elf, m: Memory, addr: nat, newFunc: nat, oldFunc: Cell?, ghost s: State) returns (r: int)
    requires s.code == 0 && Shows(m, oldFunc, s) && addr >= elf.base && newFunc != 0
    modifies m, oldFunc
    ensures var t := Step(elf, newFunc, s, addr); Shows(m, oldFunc, t) && r == t.code
  {
    if Read(m.words, addr) == newFunc {
      return 0;
    }
    var protect := elf.getProtect(addr);
    if protect.Denied? {
      return protect.code;
    }
    if protect.bits != PROT_READ_WRITE {
      r := elf.setProtect(addr);
      if r != 0 {
        return r;
      }
    }
    var oldAddr := Read(m.words, addr);
    if oldFunc != null {
      oldFunc.value := oldAddr;
    }
    m.words := m.words[addr := newFunc];
    r := 0;
  }

  /** xh_elf_find_and_replace_func */
  method FindAndReplaceFunc(elf: Elf, m: Memory, isPlt: bool, newFunc: nat, oldFunc: Cell?, symidx: nat, rel: Reloc,
                            ghost s: State) returns (r: int, found: bool)
    requires s.code == 0 && Shows(m, oldFunc, s)
    modifies m, oldFunc
    ensures found == Matches(elf, isPlt, symidx, rel)
    ensures var t := if found then Step(elf, newFunc, s, Slot(elf, rel)) else s; Shows(m, oldFunc, t) && r == t.code
  {
    found := false;
    if rel.info / Pow2(elf.symShift) != symidx {
      return 0, found;
    }
    var kind := rel.info % Pow2(elf.symShift);
    if isPlt && kind != elf.jumpSlot {
      return 0, found;
    }
    if !isPlt && kind != elf.globDat && kind != elf.abs {
      return 0, found;
    }
    found := true;
    var addr := (elf.bias + rel.offset) % Pow2(elf.w);
    if addr < elf.base {
      return XH_ERRNO_FORMAT, found;
    }
    if newFunc == 0 {
      if oldFunc != null {
        oldFunc.value := Read(m.words, addr);
      }
      return 0, found;
    }
    r := ReplaceFunction(elf, m, addr, newFunc, oldFunc, s);
  }

  /** The loop over the PLT table, which ends at the first match. */
  method HookPlt(elf: Elf, m: Memory, newFunc: nat, oldFunc: Cell?, symidx: nat, ghost s0: State) returns (r: int)
    requires s0.code == 0 && Shows(m, oldFunc, s0)
    modifies m, oldFunc
    ensures var t := Outcome(elf, newFunc, s0, First(Slots(elf, true, symidx, elf.relplt)));
            Shows(m, oldFunc, t) && r == t.code
  {
    r := 0;
    var cur := 0;
    while cur < |elf.relplt|
      invariant cur <= |elf.relplt| && r == 0 && Shows(m, oldFunc, s0)
      invariant Slots(elf, true, symidx, elf.relplt[cur..]) == Slots(elf, true, symidx, elf.relplt)
    {
      assert elf.relplt[cur..][1..] == elf.relplt[cur + 1..];
      var found;
      r, found := FindAndReplaceFunc(elf, m, true, newFunc, oldFunc, symidx, elf.relplt[cur], s0);
      if r != 0 || found {
        return;
      }
      cur := cur + 1;
    }
  }

  /** The loop over the dynamic relocations, which takes every match. */
  method HookDyn(elf: Elf, m: Memory, newFunc: nat, oldFunc: Cell?, symidx: nat, ghost s0: State) returns (r: int)
    requires s0.code == 0 && Shows(m, oldFunc, s0)
    modifies m, oldFunc
    ensures var t := Outcome(elf, newFunc, s0, Slots(elf, false, symidx, elf.reldyn));
            Shows(m, oldFunc, t) && r == t.code
  {
    r := 0;
    ghost var s := s0;
    var cur := 0;
    while cur < |elf.reldyn|
      invariant cur <= |elf.reldyn| && r == 0 == s.code && Shows(m, oldFunc, s)
      invariant Outcome(elf, newFunc, s, Slots(elf, false, symidx, elf.reldyn[cur..])) ==
                Outcome(elf, newFunc, s0, Slots(elf, false, symidx, elf.reldyn))
    {
      assert elf.reldyn[cur..][1..] == elf.reldyn[cur + 1..];
      var found;
      r, found := FindAndReplaceFunc(elf, m, false, newFunc, oldFunc, symidx, elf.reldyn[cur], s);
      s := if found then Step(elf, newFunc, s, Slot(elf, elf.reldyn[cur])) else s;
      if r != 0 {
        Stopped(elf, newFunc, s, Slots(elf, false, symidx, elf.reldyn[cur + 1..]));
        return;
      }
      cur := cur + 1;
    }
  }

  /** The packed table is well-formed: some grouping of relocations, in some encoding. */
  ghost predicate Packed(elf: Elf, groups: seq<Group>, start: nat) {
    IsSection(elf.android, elf.w, elf.isUseRela, groups, start)
  }

  lemma {:induction false} SlotsConcat(elf: Elf, isPlt: bool, symidx: nat, a: seq<Reloc>, b: seq<Reloc>)
    ensures Slots(elf, isPlt, symidx, a + b) == Slots(elf, isPlt, symidx, a) + Slots(elf, isPlt, symidx, b)
  {
    if a == [] {
      assert a + b == b;
    } else {
      assert (a + b)[1..] == a[1..] + b;
      SlotsConcat(elf, isPlt, symidx, a[1..], b);
    }
  }

  // ---------- what a target is ----------

  /**
   A word is a target exactly if it is where the offset of the first PLT relocation of the symbol leads, or
   that of some dynamic or some packed relocation of the symbol.
   */
  lemma TargetMeans(elf: Elf, symidx: nat, android: seq<Reloc>, a: nat)
    ensures a in Targets(elf, symidx, android) <==>
      || (exists p :: 0 <= p < |elf.relplt| && Concerns(elf, symidx, elf.jumpSlot, elf.jumpSlot, elf.relplt[p])
            && (forall q :: 0 <= q < p ==> !Concerns(elf, symidx, elf.jumpSlot, elf.jumpSlot, elf.relplt[q]))
            && a == (elf.bias + elf.relplt[p].offset) % Pow2(elf.w))
      || (exists k :: 0 <= k < |elf.reldyn| && Concerns(elf, symidx, elf.globDat, elf.abs, elf.reldyn[k])
            && a == (elf.bias + elf.reldyn[k].offset) % Pow2(elf.w))
      || (exists k :: 0 <= k < |android| && Concerns(elf, symidx, elf.globDat, elf.abs, android[k])
            && a == (elf.bias + android[k].offset) % Pow2(elf.w))
  {
    PltTarget(elf, symidx, a);
    TableTarget(elf, symidx, elf.reldyn, a);
    TableTarget(elf, symidx, android, a);
  }

  lemma PltTarget(elf: Elf, symidx: nat, a: nat)
    ensures a in First(Slots(elf, true, symidx, elf.relplt)) <==>
      exists p :: 0 <= p < |elf.relplt| && Concerns(elf, symidx, elf.jumpSlot, elf.jumpSlot, elf.relplt[p])
        && (forall q :: 0 <= q < p ==> !Concerns(elf, symidx, elf.jumpSlot, elf.jumpSlot, elf.relplt[q]))
        && a == (elf.bias + elf.relplt[p].offset) % Pow2(elf.w)
  {
    var p := FirstMatching(elf, symidx, elf.relplt);
    forall q | 0 <= q < |elf.relplt|
      ensures Matches(elf, true, symidx, elf.relplt[q]) <==>
              Concerns(elf, symidx, elf.jumpSlot, elf.jumpSlot, elf.relplt[q])
    {
      MatchesMeans(elf, symidx, elf.relplt[q]);
    }
    if p < |elf.relplt| {
      MatchesMeans(elf, symidx, elf.relplt[p]);
      FirstSlot(elf, true, symidx, elf.relplt, p);
    } else {
      NoSlot(elf, true, symidx, elf.relplt);
    }
  }

  lemma {:induction false} FirstMatching(elf: Elf, symidx: nat, rs: seq<Reloc>) returns (p: nat)
    ensures p <= |rs| && (p < |rs| ==> Matches(elf, true, symidx, rs[p]))
    ensures forall q :: 0 <= q < p ==> !Matches(elf, true, symidx, rs[q])
  {
    p := 0;
    if rs != [] && !Matches(elf, true, symidx, rs[0]) {
      var n := FirstMatching(elf, symidx, rs[1..]);
      p := n + 1;
      assert forall q :: 0 < q < p ==> rs[q] == rs[1..][q - 1];
    }
  }

  lemma TableTarget(elf: Elf, symidx: nat, rs: seq<Reloc>, a: nat)
    ensures a in Slots(elf, false, symidx, rs) <==>
      exists k :: 0 <= k < |rs| && Concerns(elf, symidx, elf.globDat, elf.abs, rs[k])
        && a == (elf.bias + rs[k].offset) % Pow2(elf.w)
  {
    if a in Slots(elf, false, symidx, rs) {
      var k := SlotsFrom(elf, false, symidx, rs, a);
      MatchesMeans(elf, symidx, rs[k]);
    }
    forall k | 0 <= k < |rs| && Concerns(elf, symidx, elf.globDat, elf.abs, rs[k])
      ensures (elf.bias + rs[k].offset) % Pow2(elf.w) in Slots(elf, false, symidx, rs)
    {
      MatchesMeans(elf, symidx, rs[k]);
      SlotsHave(elf, false, symidx, rs, k);
    }
  }

  lemma {:induction false} SameSlots(elf: Elf, elf': Elf, isPlt: bool, symidx: nat, rs: seq<Reloc>)
    requires elf' == elf.(relplt := elf'.relplt, reldyn := elf'.reldyn)
    ensures Slots(elf', isPlt, symidx, rs) == Slots(elf, isPlt, symidx, rs)
  {
    if rs == [] {
    } else {
      SameSlots(elf, elf', isPlt, symidx, rs[1..]);
    }
  }

  /** The order: what the PLT table names, then the dynamic table, then the packed one. */
  lemma TargetsByTable(elf: Elf, symidx: nat, android: seq<Reloc>)
    ensures Targets(elf, symidx, android) ==
            Targets(elf.(reldyn := []), symidx, []) + Targets(elf.(relplt := []), symidx, []) +
            Targets(elf.(relplt := [], reldyn := []), symidx, android)
  {
    SameSlots(elf, elf.(reldyn := []), true, symidx, elf.relplt);
    SameSlots(elf, elf.(relplt := []), false, symidx, elf.reldyn);
    SameSlots(elf, elf.(relplt := [], reldyn := []), false, symidx, android);
  }

  /** And within a table that of its relocations: one more adds its word at the end, if it concerns the symbol. */
  lemma OneMoreTarget(elf: Elf, symidx: nat, rs: seq<Reloc>, r: Reloc)
    requires elf.relplt == []
    ensures var more := if Concerns(elf, symidx, elf.globDat, elf.abs, r)
                        then [(elf.bias + r.offset) % Pow2(elf.w)] else [];
            && Targets(elf.(reldyn := rs + [r]), symidx, []) == Targets(elf.(reldyn := rs), symidx, []) + more
            && Targets(elf, symidx, rs + [r]) == Targets(elf, symidx, rs) + more
  {
    MatchesMeans(elf, symidx, r);
    SlotsConcat(elf, false, symidx, rs, [r]);
    assert [r][1..] == [];
    SameSlots(elf, elf.(reldyn := rs + [r]), false, symidx, rs + [r]);
    SameSlots(elf, elf.(reldyn := rs), false, symidx, rs);
  }

  /** What a prefix that stopped the run says about the whole. */
  lemma StoppedEarly(elf: Elf, newFunc: nat, symidx: nat, s: State, seen: seq<Reloc>, more: seq<Reloc>)
    requires Outcome(elf, newFunc, s, Slots(elf, false, symidx, seen)).code != 0
    ensures Outcome(elf, newFunc, s, Slots(elf, false, symidx, seen + more)) ==
            Outcome(elf, newFunc, s, Slots(elf, false, symidx, seen))
  {
    SlotsConcat(elf, false, symidx, seen, more);
    RunConcat(elf, newFunc, s, Slots(elf, false, symidx, seen), Slots(elf, false, symidx, more));
    Stopped(elf, newFunc, Outcome(elf, newFunc, s, Slots(elf, false, symidx, seen)), Slots(elf, false, symidx, more));
  }

  /** One more relocation seen. */
  lemma SeenOneMore(elf: Elf, newFunc: nat, symidx: nat, s: State, seen: seq<Reloc>, x: Reloc)
    ensures var t := Outcome(elf, newFunc, s, Slots(elf, false, symidx, seen));
            Outcome(elf, newFunc, s, Slots(elf, false, symidx, seen + [x])) ==
            if Matches(elf, false, symidx, x) then Step(elf, newFunc, t, Slot(elf, x)) else t
  {
    SlotsConcat(elf, false, symidx, seen, [x]);
    assert [x][1..] == [] && [Slot(elf, x)] + [] == [Slot(elf, x)];
    RunConcat(elf, newFunc, s, Slots(elf, false, symidx, seen), Slots(elf, false, symidx, [x]));
    assert [Slot(elf, x)][1..] == [];
  }

  /** The loop over the packed table. `seen` is what its iterator yields: all of a well-formed table. */
  method HookAndroid(elf: Elf, m: Memory, newFunc: nat, oldFunc: Cell?, symidx: nat, ghost s0: State,
                     ghost groups: seq<Group>, ghost start: nat) returns (r: int, ghost seen: seq<Reloc>)
    requires s0.code == 0 && Shows(m, oldFunc, s0)
    modifies m, oldFunc
    ensures var t := Outcome(elf, newFunc, s0, Slots(elf, false, symidx, seen)); Shows(m, oldFunc, t) && r == t.code
    ensures Packed(elf, groups, start) ==> seen == Flatten(groups)
  {
    ghost var good := Packed(elf, groups, start);
    r, seen := 0, [];
    var it := Open(elf.android, elf.w, elf.isUseRela, groups, start);
    ghost var g, rs, later := Group(0, 0, 0, 0, []), [], groups;
    ghost var s := s0;
    var more := true;
    while more
      invariant fresh(it) && fresh(it.decoder) && it.InRange() && r == 0 == s.code && Shows(m, oldFunc, s)
      invariant s == Outcome(elf, newFunc, s0, Slots(elf, false, symidx, seen))
      invariant good ==> it.Ready(g, rs, later) && Flatten(groups) == seen + (rs + Flatten(later))
      invariant good && !more ==> rs + Flatten(later) == []
      decreases more, it.relocationCount - it.relocationIndex
    {
      var rel;
      rel, g, rs, later := it.Next(good, g, rs, later);
      if rel.None? {
        more := false;
      } else {
        Appended(seen, rel.value, rs + Flatten(later));
        SeenOneMore(elf, newFunc, symidx, s0, seen, rel.value);
        var found;
        r, found := FindAndReplaceFunc(elf, m, false, newFunc, oldFunc, symidx, rel.value, s);
        seen := seen + [rel.value];
        s := if found then Step(elf, newFunc, s, Slot(elf, rel.value)) else s;
        if r != 0 {
          if good {
            StoppedEarly(elf, newFunc, symidx, s0, seen, rs + Flatten(later));
            seen := Flatten(groups);
          }
          return;
        }
      }
    }
  }

  /**
   xh_elf_hook. `lookup` is what the symbol search found and `android` what the packed iterator
   yields. An unknown symbol is no error and changes nothing.
   */
  method Hook(elf: Elf, m: Memory, symbol: Option<CStr>, newFunc: nat, oldFunc: Cell?, ghost lists: seq<seq<nat>>,
              ghost groups: seq<Group>, ghost start: nat)
    returns (r: int, ghost lookup: Lookup, ghost android: seq<Reloc>)
    requires WellFormed(elf.table, lists)
    modifies m, oldFunc
    ensures !elf.inited ==> r == XH_ERRNO_ELFINIT && lookup == NotFound
    ensures elf.inited && symbol.None? ==> r == XH_ERRNO_INVAL && lookup == NotFound
    ensures elf.inited && symbol.Some? ==>
              Answers(elf.table, lists, symbol.value, lookup) && (lookup == NotFound ==> r == 0)
    ensures lookup == NotFound ==> m.words == old(m.words) && (oldFunc != null ==> oldFunc.value == old(oldFunc.value))
    ensures lookup.Found? ==>
              var s := State(old(m.words), if oldFunc == null then 0 else old(oldFunc.value), 0);
              var t := Outcome(elf, newFunc, s, Targets(elf, lookup.index, android));
              Shows(m, oldFunc, t) && r == t.code
    ensures !elf.hasAndroid ==> android == []
    ensures elf.hasAndroid && Packed(elf, groups, start) && lookup.Found? ==> android == Flatten(groups)
  {
    lookup, android := NotFound, [];
    if !elf.inited {
      return XH_ERRNO_ELFINIT, lookup, android;
    }
    if symbol.None? {
      return XH_ERRNO_INVAL, lookup, android;
    }
    var found := FindSymidx(elf.table, symbol.value, lists);
    lookup := found;
    if found.NotFound? {
      return 0, lookup, android;
    }
    r, android := HookTables(elf, m, newFunc, oldFunc, found.index, groups, start);
  }

  method HookTables(elf: Elf, m: Memory, newFunc: nat, oldFunc: Cell?, symidx: nat, ghost groups: seq<Group>,
                    ghost start: nat) returns (r: int, ghost android: seq<Reloc>)
    modifies m, oldFunc
    ensures var s := State(old(m.words), if oldFunc == null then 0 else old(oldFunc.value), 0);
            var t := Outcome(elf, newFunc, s, Targets(elf, symidx, android));
            Shows(m, oldFunc, t) && r == t.code
    ensures !elf.hasAndroid ==> android == []
    ensures elf.hasAndroid && Packed(elf, groups, start) ==> android == Flatten(groups)
  {
    ghost var s0 := State(m.words, if oldFunc == null then 0 else oldFunc.value, 0);
    ghost var a, b := First(Slots(elf, true, symidx, elf.relplt)), Slots(elf, false, symidx, elf.reldyn);
    ghost var s1 := Outcome(elf, newFunc, s0, a);
    ghost var s2 := Outcome(elf, newFunc, s1, b);
    android := if elf.hasAndroid then Flatten(groups) else [];
    ghost var c := Slots(elf, false, symidx, android);
    RunConcat(elf, newFunc, s0, a, b + c);
    RunConcat(elf, newFunc, s1, b, c);
    r := HookPlt(elf, m, newFunc, oldFunc, symidx, s0);
    if r != 0 {
      Stopped(elf, newFunc, s1, b + c);
      return;
    }
    r := HookDyn(elf, m, newFunc, oldFunc, symidx, s1);
    if r != 0 {
      Stopped(elf, newFunc, s2, c);
      return;
    }
    if elf.hasAndroid {
      r, android := HookAndroid(elf, m, newFunc, oldFunc, symidx, s2, groups, start);
      c := Slots(elf, false, symidx, android);
      RunConcat(elf, newFunc, s0, a, b + c);
      RunConcat(elf, newFunc, s1, b, c);
    }
  }

  // ---------- what hooking promises ----------

  /** The code a slot makes the run end with, judged on the memory before the run. */
  function Fault(elf: Elf, newFunc: nat, words: map<nat, nat>, a: nat): int {
    if a < elf.base then XH_ERRNO_FORMAT
    else if newFunc == 0 || Read(words, a) == newFunc then 0
    else Guard(elf, a)
  }

  /** When a word can be set, and which error it gives otherwise. */
  lemma FaultMeans(elf: Elf, newFunc: nat, words: map<nat, nat>, a: nat)
    ensures Fault(elf, newFunc, words, a) == 0 <==>
              && a >= elf.base
              && (newFunc == 0 || Read(words, a) == newFunc || elf.getProtect(a) == Granted(3)
                  || (elf.getProtect(a).Granted? && elf.setProtect(a) == 0))
    ensures a < elf.base ==> Fault(elf, newFunc, words, a) == 1007
    ensures a >= elf.base && Fault(elf, newFunc, words, a) != 0 ==>
              Fault(elf, newFunc, words, a) ==
              if elf.getProtect(a).Denied? then elf.getProtect(a).code else elf.setProtect(a)
  {
  }

  ghost predicate AllClear(elf: Elf, newFunc: nat, words: map<nat, nat>, slots: seq<nat>) {
    forall i :: 0 <= i < |slots| ==> Fault(elf, newFunc, words, slots[i]) == 0
  }

  /** `after` is `before` with the slots set, and nothing else. */
  ghost predicate SetExactly(before: map<nat, nat>, after: map<nat, nat>, slots: seq<nat>, newFunc: nat) {
    forall a: nat :: Read(after, a) == if a in slots then newFunc else Read(before, a)
  }

  /** Setting the first slot moves no later slot's fault. */
  lemma FaultsStay(elf: Elf, newFunc: nat, s: State, slots: seq<nat>)
    requires slots != [] && s.code == 0 && Step(elf, newFunc, s, slots[0]).code == 0
    ensures AllClear(elf, newFunc, s.words, slots) <==>
            AllClear(elf, newFunc, Step(elf, newFunc, s, slots[0]).words, slots[1..])
  {
    var t := Step(elf, newFunc, s, slots[0]).words;
    if AllClear(elf, newFunc, t, slots[1..]) {
      forall i | 0 <= i < |slots|
        ensures Fault(elf, newFunc, s.words, slots[i]) == 0
      {
        if i > 0 {
          assert Fault(elf, newFunc, t, slots[1..][i - 1]) == 0;
        }
      }
    }
  }

  /**
   The end state: hooking succeeds exactly when no target has a fault, and then it sets exactly the
   targets; otherwise it has set a prefix of them, and reports the fault of the next.
   */
  lemma {:induction false} EndState(elf: Elf, newFunc: nat, s: State, slots: seq<nat>) returns (n: nat)
    requires s.code == 0 && newFunc != 0
    ensures var t := Outcome(elf, newFunc, s, slots);
            && n <= |slots| && AllClear(elf, newFunc, s.words, slots[..n])
            && SetExactly(s.words, t.words, slots[..n], newFunc)
            && (t.code == 0 <==> AllClear(elf, newFunc, s.words, slots))
            && if t.code == 0 then n == |slots|
               else n < |slots| && t.code == Fault(elf, newFunc, s.words, slots[n])
    decreases |slots|
  {
    n := 0;
    if slots != [] {
      var next := Step(elf, newFunc, s, slots[0]);
      if next.code == 0 {
        FaultsStay(elf, newFunc, s, slots);
        var k := EndState(elf, newFunc, next, slots[1..]);
        n := k + 1;
        assert slots[..n] == [slots[0]] + slots[1..][..k];
        FaultsStay(elf, newFunc, s, slots[..n]);
      } else {
        Stopped(elf, newFunc, next, slots[1..]);
        assert Fault(elf, newFunc, s.words, slots[0]) != 0;
      }
    }
  }

  /** Hooking again changes neither memory nor `*old_func`. */
  lemma {:induction false} Repeated(elf: Elf, newFunc: nat, s: State, slots: seq<nat>)
    requires s.code == 0 && newFunc != 0 && Outcome(elf, newFunc, s, slots).code == 0
    ensures var t := Outcome(elf, newFunc, s, slots); Outcome(elf, newFunc, t, slots) == t
  {
    var t := Outcome(elf, newFunc, s, slots);
    var n := EndState(elf, newFunc, s, slots);
    assert slots[..n] == slots;
    forall i | 0 <= i < |slots|
      ensures slots[i] >= elf.base && Read(t.words, slots[i]) == newFunc
    {
      assert Fault(elf, newFunc, s.words, slots[i]) == 0;
    }
    AlreadySet(elf, newFunc, t, slots);
  }

  lemma {:induction false} AlreadySet(elf: Elf, newFunc: nat, s: State, slots: seq<nat>)
    requires newFunc != 0
    requires forall i :: 0 <= i < |slots| ==> slots[i] >= elf.base && Read(s.words, slots[i]) == newFunc
    ensures Outcome(elf, newFunc, s, slots) == s
    decreases |slots|
  {
    if slots == [] {
    } else {
      AlreadySet(elf, newFunc, s, slots[1..]);
    }
  }

  /** Something that happens to the process: a hook with this function and cell, or a write by others. */
  datatype Event = Hooked(elf: Elf, slots: seq<nat>) | Written(a: nat, v: nat)

  function After(newFunc: nat, s: State, events: seq<Event>): State
    decreases |events|
  {
    if events == [] then s
    else
      match events[0]
      case Hooked(elf, slots) => After(newFunc, Outcome(elf, newFunc, s.(code := 0), slots), events[1..])
      case Written(a, v) => After(newFunc, s.(words := s.words[a := v]), events[1..])
  }

  /** Over any run, in any number of libraries, `*old_func` never becomes the new function. */
  lemma {:induction false} OldNeverNew(newFunc: nat, s: State, events: seq<Event>)
    requires newFunc != 0 && s.saved != newFunc
    ensures After(newFunc, s, events).saved != newFunc
    decreases |events|
  {
    if events == [] {
    } else {
      match events[0]
      case Hooked(elf, slots) =>
        OldNotNew(elf, newFunc, s.(code := 0), slots);
        OldNeverNew(newFunc, Outcome(elf, newFunc, s.(code := 0), slots), events[1..]);
      case Written(a, v) =>
        OldNeverNew(newFunc, s.(words := s.words[a := v]), events[1..]);
    }
  }

  lemma {:induction false} OldNotNew(elf: Elf, newFunc: nat, s: State, slots: seq<nat>)
    requires newFunc != 0 && s.saved != newFunc
    ensures Outcome(elf, newFunc, s, slots).saved != newFunc
    decreases |slots|
  {
    if slots == [] {
    } else {
      OldNotNew(elf, newFunc, Step(elf, newFunc, s, slots[0]), slots[1..]);
    }
  }

  /** The slots that hold another function when the run reaches them, in order. */
  function Replaced(newFunc: nat, words: map<nat, nat>, slots: seq<nat>): seq<nat>
    decreases |slots|
  {
    if slots == [] then []
    else if Read(words, slots[0]) == newFunc then Replaced(newFunc, words, slots[1..])
    else [slots[0]] + Replaced(newFunc, words[slots[0] := newFunc], slots[1..])
  }

  /** Each slot that needs replacing is replaced once, however often it is named. */
  lemma {:induction false} ReplacedOnce(newFunc: nat, words: map<nat, nat>, slots: seq<nat>)
    ensures var rs := Replaced(newFunc, words, slots);
            && (forall a :: a in rs <==> a in slots && Read(words, a) != newFunc)
            && (forall i, j :: 0 <= i < j < |rs| ==> rs[i] != rs[j])
    decreases |slots|
  {
    if slots == [] {
    } else {
      var next := if Read(words, slots[0]) == newFunc then words else words[slots[0] := newFunc];
      ReplacedOnce(newFunc, next, slots[1..]);
      assert slots == [slots[0]] + slots[1..];
      var rest := Replaced(newFunc, next, slots[1..]);
      assert forall k :: 0 <= k < |rest| ==> rest[k] in rest;
    }
  }

  /** After a success `*old_func` is what the last slot replaced held before the run. */
  lemma {:induction false} SavedIsLastReplaced(elf: Elf, newFunc: nat, s: State, slots: seq<nat>)
    requires s.code == 0 && newFunc != 0 && Outcome(elf, newFunc, s, slots).code == 0
    ensures var rs := Replaced(newFunc, s.words, slots);
            Outcome(elf, newFunc, s, slots).saved == if rs == [] then s.saved else Read(s.words, rs[|rs| - 1])
    decreases |slots|
  {
    if slots == [] {
    } else {
      var next := Step(elf, newFunc, s, slots[0]);
      if next.code != 0 {
        Stopped(elf, newFunc, next, slots[1..]);
      } else {
        SavedIsLastReplaced(elf, newFunc, next, slots[1..]);
        var rest := Replaced(newFunc, next.words, slots[1..]);
        ReplacedOnce(newFunc, next.words, slots[1..]);
        assert rest != [] ==> rest[|rest| - 1] in rest;
      }
    }
  }

  /** A null function only looks: memory stays, and the last target's word is reported. */
  lemma {:induction false} NullOnlyReads(elf: Elf, s: State, slots: seq<nat>)
    requires s.code == 0
    ensures var t := Outcome(elf, 0, s, slots);
            && t.words == s.words
            && (t.code == 0 <==> forall i :: 0 <= i < |slots| ==> slots[i] >= elf.base)
            && (t.code == 0 ==> t.saved == if slots == [] then s.saved else Read(s.words, slots[|slots| - 1]))
    decreases |slots|
  {
    if slots == [] {
    } else {
      var next := Step(elf, 0, s, slots[0]);
      if next.code != 0 {
        Stopped(elf, 0, next, slots[1..]);
      } else {
        NullOnlyReads(elf, next, slots[1..]);
        assert (forall i :: 0 <= i < |slots| ==> slots[i] >= elf.base) <==>
               (forall i :: 0 <= i < |slots[1..]| ==> slots[1..][i] >= elf.base) by {
          assert forall i :: 0 < i < |slots| ==> slots[i] == slots[1..][i - 1];
        }
      }
    }
  }
}
