/**
 The iterator over packed Android relocations (`APS2`) of `xh_elf.c`, and the packing it undoes.
 All numbers are words of `w` bits; additions wrap.
 */
module PackedRelocs {
  import opened Bits
  import opened Sleb128
  import opened Options

  /** A relocation; `addend` is zero where the section has none. */
  datatype Reloc = Reloc(offset: nat, info: nat, addend: nat)

  /** A group: the fields of its header, whether used or not, and its relocations. */
  datatype Group = Group(flags: nat, delta: nat, info: nat, addend: nat, relocs: seq<Reloc>)

  const GROUPED_BY_INFO: nat := 1
  const GROUPED_BY_OFFSET_DELTA: nat := 2
  const GROUPED_BY_ADDEND: nat := 4
  const HAS_ADDEND: nat := 8

  /** `flags & flag`, for a flag that is a power of two. */
  predicate Has(flags: nat, flag: nat)
    requires flag > 0
  {
    (flags / flag) % 2 == 1
  }

  function Add(a: nat, b: nat, w: nat): nat {
    (a + b) % Pow2(w)
  }

  function Sub(a: nat, b: nat, w: nat): nat {
    (a - b) % Pow2(w)
  }

  lemma AddSub(a: nat, b: nat, w: nat)
    requires a < Pow2(w)
    ensures Add(b, Sub(a, b, w), w) == a
  {
    ModSummand(a - b, b, Pow2(w));
    DivModUnique(a, Pow2(w), 0, a);
  }

  // ---------- packing ----------

  /** The running offset and addend after some relocations. */
  datatype Run = Run(offset: nat, addend: nat)

  /** A word that is only there under a condition, then the rest of the stream. */
  function Opt(present: bool, word: nat, rest: seq<nat>): seq<nat> {
    if present then [word] + rest else rest
  }

  /** What one relocation adds in front of the rest of the stream. */
  function EntryWords(flags: nat, rela: bool, run: Run, r: Reloc, w: nat, rest: seq<nat>): seq<nat> {
    Opt(!Has(flags, GROUPED_BY_OFFSET_DELTA), Sub(r.offset, run.offset, w),
        Opt(!Has(flags, GROUPED_BY_INFO), r.info,
            Opt(rela && Has(flags, HAS_ADDEND) && !Has(flags, GROUPED_BY_ADDEND),
                Sub(r.addend, run.addend, w), rest)))
  }

  function EntriesWords(flags: nat, rela: bool, run: Run, rs: seq<Reloc>, w: nat, rest: seq<nat>): seq<nat>
    decreases |rs|
  {
    if rs == [] then rest
    else EntryWords(flags, rela, run, rs[0], w,
                    EntriesWords(flags, rela, Run(rs[0].offset, rs[0].addend), rs[1..], w, rest))
  }

  function HeaderWords(g: Group, run: Run, w: nat, rest: seq<nat>): seq<nat> {
    [|g.relocs|] + ([g.flags] +
      Opt(Has(g.flags, GROUPED_BY_OFFSET_DELTA), g.delta,
          Opt(Has(g.flags, GROUPED_BY_INFO), g.info,
              Opt(Has(g.flags, HAS_ADDEND) && Has(g.flags, GROUPED_BY_ADDEND),
                  Sub(g.addend, run.addend, w), rest))))
  }

  /** The addend a group's relocations start from. */
  function GroupAddend(g: Group, run: Run): nat {
    if !Has(g.flags, HAS_ADDEND) then 0
    else if Has(g.flags, GROUPED_BY_ADDEND) then g.addend
    else run.addend
  }

  function RunAfter(run: Run, rs: seq<Reloc>): Run {
    if rs == [] then run else Run(rs[|rs| - 1].offset, rs[|rs| - 1].addend)
  }

  function GroupsWords(groups: seq<Group>, rela: bool, run: Run, w: nat): seq<nat> {
    if groups == [] then []
    else
      var g, start := groups[0], Run(run.offset, GroupAddend(groups[0], run));
      HeaderWords(g, run, w, EntriesWords(g.flags, rela, start, g.relocs, w,
        GroupsWords(groups[1..], rela, RunAfter(start, g.relocs), w)))
  }

  function Flatten(groups: seq<Group>): seq<Reloc> {
    if groups == [] then [] else groups[0].relocs + Flatten(groups[1..])
  }

  /** The words of a packed section: the count, the start offset, the groups. */
  function SectionWords(groups: seq<Group>, rela: bool, base: nat, w: nat): seq<nat> {
    [|Flatten(groups)|] + ([base] + GroupsWords(groups, rela, Run(base, 0), w))
  }

  // ---------- which groupings are possible ----------

  predicate RelocFits(r: Reloc, rela: bool, w: nat) {
    r.offset < Pow2(w) && r.info < Pow2(w) && r.addend < Pow2(w) && (!rela ==> r.addend == 0)
  }

  /** The relocations really share what the flags say they share. */
  predicate EntriesFit(g: Group, rela: bool, run: Run, rs: seq<Reloc>, w: nat)
    decreases |rs|
  {
    rs != [] ==>
      var r := rs[0];
      && RelocFits(r, rela, w)
      && (Has(g.flags, GROUPED_BY_OFFSET_DELTA) ==> r.offset == Add(run.offset, g.delta, w))
      && (Has(g.flags, GROUPED_BY_INFO) ==> r.info == g.info)
      && (rela && (!Has(g.flags, HAS_ADDEND) || Has(g.flags, GROUPED_BY_ADDEND)) ==> r.addend == run.addend)
      && EntriesFit(g, rela, Run(r.offset, r.addend), rs[1..], w)
  }

  /** Groups are nonempty; a shared addend needs a section with addends. */
  predicate GroupsFit(groups: seq<Group>, rela: bool, run: Run, w: nat) {
    groups != [] ==>
      var g, start := groups[0], Run(run.offset, GroupAddend(groups[0], run));
      && g.relocs != [] && |g.relocs| < Pow2(w) && g.flags < Pow2(w)
      && g.delta < Pow2(w) && g.info < Pow2(w) && g.addend < Pow2(w)
      && (Has(g.flags, HAS_ADDEND) && Has(g.flags, GROUPED_BY_ADDEND) ==> rela)
      && EntriesFit(g, rela, start, g.relocs, w)
      && GroupsFit(groups[1..], rela, RunAfter(start, g.relocs), w)
  }

  predicate SectionFits(groups: seq<Group>, rela: bool, base: nat, w: nat) {
    |Flatten(groups)| < Pow2(w) && base < Pow2(w) && GroupsFit(groups, rela, Run(base, 0), w)
  }

  /** Of the group `g` the relocations `rs` are still to come, then the groups `later`. */
  predicate RestFits(g: Group, rs: seq<Reloc>, later: seq<Group>, rela: bool, run: Run, w: nat) {
    && EntriesFit(g, rela, run, rs, w) && GroupsFit(later, rela, RunAfter(run, rs), w)
    && (!rela ==> run.addend == 0)
  }

  function RestWords(g: Group, rs: seq<Reloc>, later: seq<Group>, rela: bool, run: Run, w: nat): seq<nat> {
    EntriesWords(g.flags, rela, run, rs, w, GroupsWords(later, rela, RunAfter(run, rs), w))
  }

  /** Taking the first relocation off the rest. */
  lemma RestStep(g: Group, rs: seq<Reloc>, later: seq<Group>, rela: bool, run: Run, w: nat)
    requires RestFits(g, rs, later, rela, run, w) && rs != []
    ensures var next := Run(rs[0].offset, rs[0].addend);
            && RestFits(g, rs[1..], later, rela, next, w)
            && RestWords(g, rs, later, rela, run, w) ==
               EntryWords(g.flags, rela, run, rs[0], w, RestWords(g, rs[1..], later, rela, next, w))
            && next.addend == if rela && Has(g.flags, HAS_ADDEND) && !Has(g.flags, GROUPED_BY_ADDEND)
                              then rs[0].addend else run.addend
  {
    assert RunAfter(Run(rs[0].offset, rs[0].addend), rs[1..]) == RunAfter(run, rs);
  }

  /** Opening the next group of the rest. */
  lemma RestOpen(g: Group, later: seq<Group>, rela: bool, run: Run, w: nat)
    requires RestFits(g, [], later, rela, run, w) && later != []
    ensures var n := later[0];
            var start := Run(run.offset, GroupAddend(n, run));
            && RestFits(n, n.relocs, later[1..], rela, start, w) && n.relocs != []
            && RestWords(g, [], later, rela, run, w) ==
               HeaderWords(n, run, w, RestWords(n, n.relocs, later[1..], rela, start, w))
  {
  }

  // ---------- what the flags mean ----------

  /** The addends of a group's relocations: 0 if it has none, the group's if they share one. */
  lemma {:induction false} AddendsMean(g: Group, rela: bool, run: Run, rs: seq<Reloc>, w: nat)
    requires EntriesFit(g, rela, Run(run.offset, GroupAddend(g, run)), rs, w)
    ensures rela && g.flags / 8 % 2 == 0 ==> forall k :: 0 <= k < |rs| ==> rs[k].addend == 0
    ensures rela && g.flags / 8 % 2 == 1 && g.flags / 4 % 2 == 1 ==>
              forall k :: 0 <= k < |rs| ==> rs[k].addend == g.addend
    ensures !rela ==> forall k :: 0 <= k < |rs| ==> rs[k].addend == 0
    decreases |rs|
  {
    if rs == [] {
    } else {
      SameAddend(g, rela, Run(run.offset, GroupAddend(g, run)), rs, w);
    }
  }

  lemma {:induction false} SameAddend(g: Group, rela: bool, run: Run, rs: seq<Reloc>, w: nat)
    requires EntriesFit(g, rela, run, rs, w)
    ensures rela && (!Has(g.flags, HAS_ADDEND) || Has(g.flags, GROUPED_BY_ADDEND)) ==>
              forall k :: 0 <= k < |rs| ==> rs[k].addend == run.addend
    ensures !rela ==> forall k :: 0 <= k < |rs| ==> rs[k].addend == 0
    decreases |rs|
  {
    if rs == [] {
    } else {
      SameAddend(g, rela, Run(rs[0].offset, rs[0].addend), rs[1..], w);
      assert forall k :: 0 < k < |rs| ==> rs[k] == rs[1..][k - 1];
    }
  }

  /** Their info and the distance from one to the next, the first from what is before the group. */
  lemma {:induction false} SharedMeans(g: Group, rela: bool, run: Run, rs: seq<Reloc>, w: nat)
    requires EntriesFit(g, rela, run, rs, w)
    ensures g.flags % 2 == 1 ==> forall k :: 0 <= k < |rs| ==> rs[k].info == g.info
    ensures g.flags / 2 % 2 == 1 ==>
              && (rs != [] ==> rs[0].offset == (run.offset + g.delta) % Pow2(w))
              && forall k :: 0 < k < |rs| ==> rs[k].offset == (rs[k - 1].offset + g.delta) % Pow2(w)
    decreases |rs|
  {
    if rs == [] {
    } else {
      SharedMeans(g, rela, Run(rs[0].offset, rs[0].addend), rs[1..], w);
      assert forall k :: 0 < k < |rs| ==> rs[k] == rs[1..][k - 1];
    }
  }

  /** Where nothing is shared, the words of two relocations and of one behind them that has no addend. */
  lemma NothingShared(g: Group, h: Group, a: Reloc, b: Reloc, c: Reloc, base: nat, w: nat)
    requires g == Group(8, 0, 0, 0, [a, b]) && h == Group(0, 0, 0, 0, [c])
    ensures SectionWords([g, h], true, base, w) ==
            [3, base, 2, 8] + [(a.offset - base) % Pow2(w), a.info, a.addend % Pow2(w), (b.offset - a.offset) % Pow2(w),
                               b.info, (b.addend - a.addend) % Pow2(w)] +
            [1, 0, (c.offset - b.offset) % Pow2(w), c.info]
  {
    FlattenTwo(g, h);
    var last := LastWords(b, c, h, w);
    var six, entries := EntriesOfTwo(a, b, base, w, last);
    TwoGroups(g, h, a, b, base, w, last, entries);
    Heads(base, six, last);
  }

  lemma Heads(base: nat, six: seq<nat>, last: seq<nat>)
    ensures [3] + ([base] + ([2] + ([8] + (six + last)))) == [3, base, 2, 8] + six + last
  {
  }

  lemma FlattenTwo(g: Group, h: Group)
    ensures Flatten([g, h]) == g.relocs + h.relocs
  {
    assert [g, h][1..] == [h] && [h][1..] == [] && Flatten([h]) == h.relocs;
  }

  lemma TwoGroups(g: Group, h: Group, a: Reloc, b: Reloc, base: nat, w: nat, last: seq<nat>, entries: seq<nat>)
    requires g.flags == 8 && g.relocs == [a, b] && GroupsWords([h], true, Run(b.offset, b.addend), w) == last
    requires EntriesWords(g.flags, true, Run(base, 0), g.relocs, w, last) == entries
    ensures GroupsWords([g, h], true, Run(base, 0), w) == [2] + ([8] + entries)
  {
    assert [g, h][1..] == [h];
  }

  lemma LastWords(b: Reloc, c: Reloc, h: Group, w: nat) returns (words: seq<nat>)
    requires h == Group(0, 0, 0, 0, [c])
    ensures words == [1, 0, (c.offset - b.offset) % Pow2(w), c.info]
    ensures GroupsWords([h], true, Run(b.offset, b.addend), w) == words
  {
    words := [1, 0, (c.offset - b.offset) % Pow2(w), c.info];
    assert [h][1..] == [] && [c][1..] == [];
    assert EntriesWords(0, true, Run(b.offset, 0), [c], w, []) == words[2..];
  }

  lemma EntriesOfTwo(a: Reloc, b: Reloc, base: nat, w: nat, rest: seq<nat>) returns (six: seq<nat>, words: seq<nat>)
    ensures six == [(a.offset - base) % Pow2(w), a.info, a.addend % Pow2(w), (b.offset - a.offset) % Pow2(w), b.info,
                    (b.addend - a.addend) % Pow2(w)]
    ensures words == six + rest && EntriesWords(8, true, Run(base, 0), [a, b], w, rest) == words
  {
    assert [a, b][1..] == [b] && [b][1..] == [];
    var second := [Sub(b.offset, a.offset, w), b.info, Sub(b.addend, a.addend, w)] + rest;
    assert EntriesWords(8, true, Run(a.offset, a.addend), [b], w, rest) == second;
    words := [Sub(a.offset, base, w), a.info, Sub(a.addend, 0, w)] + second;
    six := words[..6];
  }

  // ---------- words as bytes ----------

  /** `bytes` is the words one after the other, each in some encoding, minimal or padded. */
  ghost predicate Encodes(bytes: seq<Byte>, words: seq<nat>, w: nat) {
    if words == [] then bytes == []
    else
      var n := FirstLength(bytes);
      && n > 0 && IsEncoding(bytes[..n]) && Signed(bytes[..n]) % Pow2(w) == words[0]
      && Encodes(bytes[n..], words[1..], w)
  }

  /** The packer's own choice: the shortest encodings. */
  function Pack(words: seq<nat>): seq<Byte> {
    if words == [] then [] else Encode(words[0]) + Pack(words[1..])
  }

  lemma {:induction false} PackEncodes(words: seq<nat>, w: nat)
    requires forall i :: 0 <= i < |words| ==> words[i] < Pow2(w)
    ensures Encodes(Pack(words), words, w)
  {
    if words == [] {
    } else {
      var e, rest := Encode(words[0]), Pack(words[1..]);
      EncodeInverse(words[0]);
      FirstOfConcat(e, rest);
      assert (e + rest)[..|e|] == e && (e + rest)[|e|..] == rest;
      DivModUnique(words[0], Pow2(w), 0, words[0]);
      PackEncodes(words[1..], w);
    }
  }

  // ---------- the iterator ----------

  class Iterator {
    const w: nat
    const rela: bool
    var decoder: Decoder
    var relocationCount: nat
    var groupSize: nat
    var groupFlags: nat
    var groupDelta: nat
    var relocationIndex: nat
    var groupIndex: nat
    var rOffset: nat
    var rInfo: nat
    var rAddend: nat

    /** The fields that xh_elf_packed_reloc_iterator_init clears, before the two words it reads. */
    constructor (bytes: seq<Byte>, w: nat, rela: bool)
      ensures decoder.bytes == bytes && decoder.w == w && this.w == w && this.rela == rela
      ensures decoder.cur == 0 && fresh(decoder)
      ensures groupSize == 0 && groupFlags == 0 && relocationIndex == 0 && groupIndex == 0 && rAddend == 0
    {
      this.w, this.rela := w, rela;
      decoder := new Decoder(bytes, w);
      relocationCount, groupSize, groupFlags, groupDelta := 0, 0, 0, 0;
      relocationIndex, groupIndex, rOffset, rInfo, rAddend := 0, 0, 0, 0, 0;
    }

    ghost predicate InRange()
      reads this, decoder
    {
      decoder.w == w && decoder.cur <= |decoder.bytes|
    }

    /** The bytes still to be read are exactly `words`. */
    ghost predicate Ahead(words: seq<nat>)
      reads this, decoder
    {
      InRange() && Encodes(decoder.bytes[decoder.cur..], words, w)
    }

    /**
     One word is decoded, if it is asked for. The methods below run on any input; what they
     promise on `good` input is what well-formed sections get.
     */
    method Word(present: bool, ghost good: bool, ghost word: nat, ghost rest: seq<nat>) returns (val: Decoded)
      requires InRange() && (good ==> Ahead(Opt(present, word, rest)))
      modifies decoder
      ensures InRange() && (good ==> Ahead(rest) && val == Ok(if present then word else 0))
    {
      if !present {
        return Ok(0);
      }
      ghost var bytes := decoder.bytes[decoder.cur..];
      assert ([word] + rest)[1..] == rest;
      val := decoder.Next();
      assert decoder.cur < |decoder.bytes| || decoder.bytes[decoder.cur..] == [];
      assert FirstLength(bytes) > 0 ==> decoder.bytes[decoder.cur..] == bytes[FirstLength(bytes)..];
    }

    /** xh_elf_packed_reloc_iterator_init, second half. */
    method Init(ghost good: bool, ghost count: nat, ghost base: nat, ghost rest: seq<nat>) returns (ok: bool)
      requires InRange() && (good ==> Ahead([count] + ([base] + rest)))
      modifies this`relocationCount, this`rOffset, decoder
      ensures InRange()
      ensures good ==> ok && relocationCount == count && rOffset == base && Ahead(rest)
    {
      ok := false;
      var r := Word(true, good, count, [base] + rest);
      if r.Format? {
        return;
      }
      relocationCount := r.value;
      r := Word(true, good, base, rest);
      if r.Format? {
        return;
      }
      rOffset := r.value;
      ok := true;
    }

    /** Of the current group `g` the relocations `rs` are still to come, then the groups `later`. */
    ghost predicate Ready(g: Group, rs: seq<Reloc>, later: seq<Group>)
      reads this, decoder
    {
      var run := Run(rOffset, rAddend);
      && groupSize == groupIndex + |rs| && groupFlags == g.flags
      && (Has(g.flags, GROUPED_BY_OFFSET_DELTA) ==> groupDelta == g.delta)
      && (Has(g.flags, GROUPED_BY_INFO) ==> rInfo == g.info)
      && relocationCount == relocationIndex + |rs| + |Flatten(later)|
      && RestFits(g, rs, later, rela, run, w) && Ahead(RestWords(g, rs, later, rela, run, w))
    }

    /** The first two words of a group header. */
    method ReadGroupSize(ghost good: bool, ghost n: Group, ghost body: seq<nat>) returns (ok: bool)
      requires InRange() && (good ==> Ahead([|n.relocs|] + ([n.flags] + body)))
      modifies this`groupSize, this`groupFlags, decoder
      ensures InRange()
      ensures good ==> ok && Ahead(body) && groupSize == |n.relocs| && groupFlags == n.flags
    {
      ok := false;
      var val := Word(true, good, |n.relocs|, [n.flags] + body);
      if val.Format? {
        return;
      }
      groupSize := val.value;
      val := Word(true, good, n.flags, body);
      if val.Format? {
        return;
      }
      groupFlags := val.value;
      ok := true;
    }

    /** The offset delta and the info that a group header may share. */
    method ReadGroupShared(ghost good: bool, ghost n: Group, ghost body: seq<nat>) returns (ok: bool)
      requires InRange()
      requires good ==>
        && groupFlags == n.flags
        && Ahead(Opt(Has(n.flags, GROUPED_BY_OFFSET_DELTA), n.delta, Opt(Has(n.flags, GROUPED_BY_INFO), n.info, body)))
      modifies this`groupDelta, this`rInfo, decoder
      ensures InRange()
      ensures good ==>
        && ok && Ahead(body)
        && (Has(n.flags, GROUPED_BY_OFFSET_DELTA) ==> groupDelta == n.delta)
        && (Has(n.flags, GROUPED_BY_INFO) ==> rInfo == n.info)
    {
      ok := false;
      var byDelta, byInfo := Has(groupFlags, GROUPED_BY_OFFSET_DELTA), Has(groupFlags, GROUPED_BY_INFO);
      var val := Word(byDelta, good, n.delta, Opt(byInfo, n.info, body));
      if val.Format? {
        return;
      }
      groupDelta := if byDelta then val.value else groupDelta;
      val := Word(byInfo, good, n.info, body);
      if val.Format? {
        return;
      }
      rInfo := if byInfo then val.value else rInfo;
      ok := true;
    }

    /** xh_elf_packed_reloc_iterator_read_group_fields, against the words of one header. */
    method ReadGroupFields(ghost good: bool, ghost n: Group, ghost body: seq<nat>) returns (ok: bool)
      requires InRange()
      requires good ==>
        && Ahead(HeaderWords(n, Run(rOffset, rAddend), w, body)) && n.addend < Pow2(w)
        && (Has(n.flags, HAS_ADDEND) && Has(n.flags, GROUPED_BY_ADDEND) ==> rela)
      modifies this`groupSize, this`groupFlags, this`groupDelta, this`rInfo, this`rAddend, this`groupIndex, decoder
      ensures InRange()
      ensures good ==>
        && ok && Ahead(body) && groupSize == |n.relocs| && groupFlags == n.flags && groupIndex == 0
        && (Has(n.flags, GROUPED_BY_OFFSET_DELTA) ==> groupDelta == n.delta)
        && (Has(n.flags, GROUPED_BY_INFO) ==> rInfo == n.info)
        && rAddend == GroupAddend(n, Run(rOffset, old(rAddend)))
    {
      ghost var a := Opt(Has(n.flags, HAS_ADDEND) && Has(n.flags, GROUPED_BY_ADDEND), Sub(n.addend, rAddend, w), body);
      ghost var i := Opt(Has(n.flags, GROUPED_BY_INFO), n.info, a);
      ok := ReadGroupSize(good, n, Opt(Has(n.flags, GROUPED_BY_OFFSET_DELTA), n.delta, i));
      if !ok {
        return;
      }
      ok := ReadGroupShared(good, n, a);
      if !ok {
        return;
      }
      ok := ReadGroupAddend(good, n, rAddend, body);
      if ok {
        groupIndex := 0;
      }
    }

    /** The addend part of the group header. */
    method ReadGroupAddend(ghost good: bool, ghost n: Group, ghost was: nat, ghost body: seq<nat>) returns (ok: bool)
      requires InRange() && was == rAddend
      requires good ==>
        && groupFlags == n.flags && n.addend < Pow2(w)
        && (Has(n.flags, HAS_ADDEND) && Has(n.flags, GROUPED_BY_ADDEND) ==> rela)
        && Ahead(Opt(Has(n.flags, HAS_ADDEND) && Has(n.flags, GROUPED_BY_ADDEND), Sub(n.addend, was, w), body))
      modifies this`rAddend, decoder
      ensures InRange()
      ensures good ==> ok && rAddend == GroupAddend(n, Run(0, was)) && Ahead(body)
    {
      if Has(groupFlags, HAS_ADDEND) && Has(groupFlags, GROUPED_BY_ADDEND) {
        if !rela {
          return false;
        }
        var val := Word(true, good, Sub(n.addend, was, w), body);
        if val.Format? {
          return false;
        }
        if good {
          AddSub(n.addend, was, w);
        }
        rAddend := Add(rAddend, val.value, w);
      } else if !Has(groupFlags, HAS_ADDEND) {
        rAddend := 0;
      }
      ok := true;
    }

    /** At the end of a group the next one is opened. */
    method OpenGroup(ghost good: bool, ghost g0: Group, ghost rs0: seq<Reloc>, ghost later0: seq<Group>)
      returns (ok: bool, ghost g: Group, ghost rs: seq<Reloc>, ghost later: seq<Group>)
      requires InRange() && (good ==> Ready(g0, rs0, later0) && relocationIndex < relocationCount)
      modifies this`groupSize, this`groupFlags, this`groupDelta, this`rInfo, this`rAddend, this`groupIndex, decoder
      ensures InRange()
      ensures good ==> ok && Ready(g, rs, later) && rs != [] && rs0 + Flatten(later0) == rs + Flatten(later)
    {
      ok, g, rs, later := true, g0, rs0, later0;
      if groupIndex == groupSize {
        ghost var n, rest := g0, [];
        if good {
          n := later0[0];
          var start := Run(rOffset, GroupAddend(n, Run(rOffset, rAddend)));
          rest := RestWords(n, n.relocs, later0[1..], rela, start, w);
          RestOpen(g, later0, rela, Run(rOffset, rAddend), w);
          g, rs, later := n, n.relocs, later0[1..];
        }
        ok := ReadGroupFields(good, n, rest);
      }
    }

    /** The relocation's offset: the group's distance from the one before, or a distance of its own. */
    method ReadOffset(ghost good: bool, ghost g: Group, ghost x: Reloc, ghost rest: seq<nat>) returns (ok: bool)
      requires InRange()
      requires good ==>
        && Ahead(Opt(!Has(g.flags, GROUPED_BY_OFFSET_DELTA), Sub(x.offset, rOffset, w), rest)) && groupFlags == g.flags
        && x.offset < Pow2(w)
        && (Has(g.flags, GROUPED_BY_OFFSET_DELTA) ==> groupDelta == g.delta && x.offset == Add(rOffset, g.delta, w))
      modifies this`rOffset, decoder
      ensures InRange() && (good ==> ok && Ahead(rest) && rOffset == x.offset)
    {
      if good {
        AddSub(x.offset, rOffset, w);
      }
      var val := Word(!Has(groupFlags, GROUPED_BY_OFFSET_DELTA), good, Sub(x.offset, rOffset, w), rest);
      if val.Format? {
        return false;
      }
      rOffset := Add(rOffset, if Has(groupFlags, GROUPED_BY_OFFSET_DELTA) then groupDelta else val.value, w);
      ok := true;
    }

    /** Its info: the group's, or its own. */
    method ReadInfo(ghost good: bool, ghost g: Group, ghost x: Reloc, ghost rest: seq<nat>) returns (ok: bool)
      requires InRange()
      requires good ==>
        && Ahead(Opt(!Has(g.flags, GROUPED_BY_INFO), x.info, rest)) && groupFlags == g.flags
        && (Has(g.flags, GROUPED_BY_INFO) ==> rInfo == g.info == x.info)
      modifies this`rInfo, decoder
      ensures InRange() && (good ==> ok && Ahead(rest) && rInfo == x.info)
    {
      var val := Word(!Has(groupFlags, GROUPED_BY_INFO), good, x.info, rest);
      if val.Format? {
        return false;
      }
      rInfo := if Has(groupFlags, GROUPED_BY_INFO) then rInfo else val.value;
      ok := true;
    }

    /** Its addend: as it was, or at a distance of its own. */
    method ReadAddend(ghost good: bool, ghost g: Group, ghost x: Reloc, ghost body: seq<nat>) returns (ok: bool)
      requires InRange()
      requires good ==>
        && Ahead(Opt(rela && Has(g.flags, HAS_ADDEND) && !Has(g.flags, GROUPED_BY_ADDEND),
                     Sub(x.addend, rAddend, w), body))
        && groupFlags == g.flags && x.addend < Pow2(w)
      modifies this`rAddend, decoder
      ensures InRange() && (good ==> ok && Ahead(body))
      ensures good ==>
        rAddend == if rela && Has(g.flags, HAS_ADDEND) && !Has(g.flags, GROUPED_BY_ADDEND)
                   then x.addend else old(rAddend)
    {
      if good {
        AddSub(x.addend, rAddend, w);
      }
      var own := rela && Has(groupFlags, HAS_ADDEND) && !Has(groupFlags, GROUPED_BY_ADDEND);
      var val := Word(own, good, Sub(x.addend, rAddend, w), body);
      if val.Format? {
        return false;
      }
      rAddend := if own then Add(rAddend, val.value, w) else rAddend;
      ok := true;
    }

    /** The part of `next` that reads one relocation's own words. */
    method ReadEntry(ghost good: bool, ghost g: Group, ghost x: Reloc, ghost body: seq<nat>) returns (ok: bool)
      requires InRange()
      requires good ==>
        && Ahead(EntryWords(g.flags, rela, Run(rOffset, rAddend), x, w, body)) && groupFlags == g.flags
        && RelocFits(x, rela, w)
        && (Has(g.flags, GROUPED_BY_OFFSET_DELTA) ==> groupDelta == g.delta && x.offset == Add(rOffset, g.delta, w))
        && (Has(g.flags, GROUPED_BY_INFO) ==> rInfo == g.info == x.info)
      modifies this`rOffset, this`rInfo, this`rAddend, decoder
      ensures InRange()
      ensures good ==>
        && ok && Ahead(body) && rOffset == x.offset && rInfo == x.info
        && rAddend == if rela && Has(g.flags, HAS_ADDEND) && !Has(g.flags, GROUPED_BY_ADDEND)
                      then x.addend else old(rAddend)
    {
      ghost var a := Opt(rela && Has(g.flags, HAS_ADDEND) && !Has(g.flags, GROUPED_BY_ADDEND),
                         Sub(x.addend, rAddend, w), body);
      ok := ReadOffset(good, g, x, Opt(!Has(g.flags, GROUPED_BY_INFO), x.info, a));
      if ok {
        ok := ReadInfo(good, g, x, a);
      }
      if ok {
        ok := ReadAddend(good, g, x, body);
      }
    }

    /** The same, with what is ahead before and after. */
    method ReadFirst(ghost good: bool, ghost g: Group, ghost rs: seq<Reloc>, ghost later: seq<Group>)
      returns (ok: bool)
      requires InRange() && (good ==> Ready(g, rs, later) && rs != [])
      modifies this`rOffset, this`rInfo, this`rAddend, decoder
      ensures InRange()
      ensures good ==>
        && ok && rOffset == rs[0].offset && rInfo == rs[0].info && rAddend == rs[0].addend
        && (Has(g.flags, GROUPED_BY_INFO) ==> rInfo == g.info)
        && var next := Run(rs[0].offset, rs[0].addend);
           RestFits(g, rs[1..], later, rela, next, w) && Ahead(RestWords(g, rs[1..], later, rela, next, w))
    {
      ghost var x, body := Reloc(0, 0, 0), [];
      if good {
        x := rs[0];
        body := RestWords(g, rs[1..], later, rela, Run(x.offset, x.addend), w);
        RestStep(g, rs, later, rela, Run(rOffset, rAddend), w);
      }
      ok := ReadEntry(good, g, x, body);
    }

    /** The rest of `next`: one relocation of the open group. */
    method NextInGroup(ghost good: bool, ghost g: Group, ghost rs: seq<Reloc>, ghost later: seq<Group>)
      returns (r: Option<Reloc>)
      requires InRange() && relocationIndex < relocationCount
      requires good ==> Ready(g, rs, later) && rs != []
      modifies this`rOffset, this`rInfo, this`rAddend, this`relocationIndex, this`groupIndex, decoder
      ensures InRange()
      ensures r.Some? ==> relocationIndex == old(relocationIndex) + 1
      ensures good ==> r == Some(rs[0]) && Ready(g, rs[1..], later)
    {
      var ok := ReadFirst(good, g, rs, later);
      if !ok {
        return None;
      }
      relocationIndex := relocationIndex + 1;
      groupIndex := groupIndex + 1;
      r := Some(Reloc(rOffset, rInfo, if rela then rAddend else 0));
    }

    /** xh_elf_packed_reloc_iterator_next: the next relocation, or None where the source returns NULL. */
    method Next(ghost good: bool, ghost g0: Group, ghost rs0: seq<Reloc>, ghost later0: seq<Group>)
      returns (r: Option<Reloc>, ghost g: Group, ghost rs: seq<Reloc>, ghost later: seq<Group>)
      requires InRange() && (good ==> Ready(g0, rs0, later0))
      modifies this, decoder
      ensures decoder == old(decoder) && InRange() && relocationCount == old(relocationCount)
      ensures r.Some? ==> relocationIndex == old(relocationIndex) + 1 <= relocationCount
      ensures good ==> Ready(g, rs, later) && Promised(r, rs0 + Flatten(later0), rs + Flatten(later))
    {
      g, rs, later := g0, rs0, later0;
      if relocationIndex >= relocationCount {
        return None, g, rs, later;
      }
      var ok;
      ok, g, rs, later := OpenGroup(good, g, rs, later);
      if !ok {
        return None, g, rs, later;
      }
      r := NextInGroup(good, g, rs, later);
      if good {
        FirstOff(rs, Flatten(later));
        rs := rs[1..];
      }
    }
  }

  lemma FirstOff(rs: seq<Reloc>, more: seq<Reloc>)
    requires rs != []
    ensures rs + more == [rs[0]] + (rs[1..] + more)
  {
  }

  /** The relocation returned is the first of those ahead, and the rest stays ahead. */
  ghost predicate Promised(r: Option<Reloc>, before: seq<Reloc>, after: seq<Reloc>) {
    match r
    case None => before == [] == after
    case Some(x) => before == [x] + after
  }

  lemma Appended(done: seq<Reloc>, x: Reloc, more: seq<Reloc>)
    ensures done + ([x] + more) == (done + [x]) + more
  {
  }

  /** `next` until NULL. */
  method Drain(it: Iterator, ghost good: bool, ghost g0: Group, ghost rs0: seq<Reloc>, ghost later0: seq<Group>)
    returns (relocs: seq<Reloc>)
    requires it.InRange() && (good ==> it.Ready(g0, rs0, later0))
    modifies it, it.decoder
    ensures good ==> relocs == rs0 + Flatten(later0)
  {
    relocs := [];
    ghost var g, rs, later := g0, rs0, later0;
    ghost var all := rs + Flatten(later);
    var more := true;
    while more
      invariant it.decoder == old(it.decoder) && it.InRange()
      invariant good ==> it.Ready(g, rs, later) && all == relocs + (rs + Flatten(later))
      invariant good && !more ==> rs + Flatten(later) == []
      decreases more, it.relocationCount - it.relocationIndex
    {
      ghost var before := rs + Flatten(later);
      var r;
      r, g, rs, later := it.Next(good, g, rs, later);
      if r.Some? {
        Appended(relocs, r.value, rs + Flatten(later));
        relocs := relocs + [r.value];
      } else {
        more := false;
        assert good ==> rs + Flatten(later) == [];
      }
    }
  }

  /** The bytes are a well-formed packed section of these groups. */
  ghost predicate IsSection(bytes: seq<Byte>, w: nat, rela: bool, groups: seq<Group>, base: nat) {
    SectionFits(groups, rela, base, w) && Encodes(bytes, SectionWords(groups, rela, base, w), w)
  }

  /** xh_elf_packed_reloc_iterator_init, as its caller uses it: the result is ignored. */
  method Open(bytes: seq<Byte>, w: nat, rela: bool, ghost groups: seq<Group>, ghost base: nat) returns (it: Iterator)
    ensures fresh(it) && fresh(it.decoder) && it.InRange()
    ensures IsSection(bytes, w, rela, groups, base) ==> it.Ready(Group(0, 0, 0, 0, []), [], groups)
  {
    it := new Iterator(bytes, w, rela);
    assert bytes[0..] == bytes;
    ghost var good := IsSection(bytes, w, rela, groups, base);
    var ok := it.Init(good, |Flatten(groups)|, base, GroupsWords(groups, rela, Run(base, 0), w));
    NoFlags();
  }

  /**
   The loop of `xh_elf_hook` over a packed section: init, then `next` until NULL. For every way of
   grouping the relocations and every encoding of the words, it yields exactly the relocations.
   */
  method DecodeAll(bytes: seq<Byte>, w: nat, rela: bool, ghost groups: seq<Group>, ghost base: nat)
    returns (relocs: seq<Reloc>)
    ensures IsSection(bytes, w, rela, groups, base) ==> relocs == Flatten(groups)
  {
    var it := Open(bytes, w, rela, groups, base);
    relocs := Drain(it, IsSection(bytes, w, rela, groups, base), Group(0, 0, 0, 0, []), [], groups);
  }

  lemma NoFlags()
    ensures !Has(0, GROUPED_BY_OFFSET_DELTA) && !Has(0, GROUPED_BY_INFO)
  {
  }

  /** The grouping, the flags and the encodings cannot be observed: only the relocations count. */
  lemma {:induction false} WordsDetermined(bytes: seq<Byte>, a: seq<nat>, b: seq<nat>, w: nat)
    requires Encodes(bytes, a, w) && Encodes(bytes, b, w)
    ensures a == b
    decreases |a|
  {
    if a != [] && b != [] {
      WordsDetermined(bytes[FirstLength(bytes)..], a[1..], b[1..], w);
      assert a == [a[0]] + a[1..] && b == [b[0]] + b[1..];
    }
  }

  // ---------- the packer ----------

  ghost predicate Words(words: seq<nat>, w: nat) {
    forall i :: 0 <= i < |words| ==> words[i] < Pow2(w)
  }

  lemma OptBounded(present: bool, word: nat, rest: seq<nat>, w: nat)
    requires Words(rest, w) && (present ==> word < Pow2(w))
    ensures Words(Opt(present, word, rest), w)
  {
  }

  lemma {:induction false} EntriesBounded(g: Group, rela: bool, run: Run, rs: seq<Reloc>, w: nat, rest: seq<nat>)
    requires EntriesFit(g, rela, run, rs, w) && Words(rest, w)
    ensures Words(EntriesWords(g.flags, rela, run, rs, w, rest), w)
    decreases |rs|
  {
    if rs == [] {
    } else {
      var r, next := rs[0], Run(rs[0].offset, rs[0].addend);
      EntriesBounded(g, rela, next, rs[1..], w, rest);
      var own := rela && Has(g.flags, HAS_ADDEND) && !Has(g.flags, GROUPED_BY_ADDEND);
      var tail := EntriesWords(g.flags, rela, next, rs[1..], w, rest);
      OptBounded(own, Sub(r.addend, run.addend, w), tail, w);
      var info := Opt(own, Sub(r.addend, run.addend, w), tail);
      OptBounded(!Has(g.flags, GROUPED_BY_INFO), r.info, info, w);
      OptBounded(!Has(g.flags, GROUPED_BY_OFFSET_DELTA), Sub(r.offset, run.offset, w),
                 Opt(!Has(g.flags, GROUPED_BY_INFO), r.info, info), w);
    }
  }

  lemma {:induction false} GroupsBounded(groups: seq<Group>, rela: bool, run: Run, w: nat)
    requires GroupsFit(groups, rela, run, w)
    ensures Words(GroupsWords(groups, rela, run, w), w)
    decreases |groups|
  {
    if groups == [] {
    } else {
      var g, start := groups[0], Run(run.offset, GroupAddend(groups[0], run));
      var rest := GroupsWords(groups[1..], rela, RunAfter(start, g.relocs), w);
      GroupsBounded(groups[1..], rela, RunAfter(start, g.relocs), w);
      EntriesBounded(g, rela, start, g.relocs, w, rest);
      var body := EntriesWords(g.flags, rela, start, g.relocs, w, rest);
      var both := Has(g.flags, HAS_ADDEND) && Has(g.flags, GROUPED_BY_ADDEND);
      OptBounded(both, Sub(g.addend, run.addend, w), body, w);
      var a := Opt(both, Sub(g.addend, run.addend, w), body);
      OptBounded(Has(g.flags, GROUPED_BY_INFO), g.info, a, w);
      OptBounded(Has(g.flags, GROUPED_BY_OFFSET_DELTA), g.delta, Opt(Has(g.flags, GROUPED_BY_INFO), g.info, a), w);
    }
  }

  /** Packing any fitting groups and decoding the bytes gives the relocations back. */
  method PackThenDecode(groups: seq<Group>, rela: bool, base: nat, w: nat) returns (relocs: seq<Reloc>)
    requires SectionFits(groups, rela, base, w)
    ensures relocs == Flatten(groups)
  {
    var words := SectionWords(groups, rela, base, w);
    GroupsBounded(groups, rela, Run(base, 0), w);
    PackEncodes(words, w);
    relocs := DecodeAll(Pack(words), w, rela, groups, base);
  }

  /** Every list of relocations can be packed: no group for none, else one group that shares nothing. */
  lemma EveryListFits(relocs: seq<Reloc>, rela: bool, w: nat)
    requires |relocs| < Pow2(w) && HAS_ADDEND < Pow2(w)
    requires forall i :: 0 <= i < |relocs| ==> RelocFits(relocs[i], rela, w)
    ensures var groups := if relocs == [] then [] else [Group(HAS_ADDEND, 0, 0, 0, relocs)];
            SectionFits(groups, rela, 0, w) && Flatten(groups) == relocs
  {
    var g := Group(HAS_ADDEND, 0, 0, 0, relocs);
    PlainFits(g, rela, Run(0, 0), relocs, w);
    assert Flatten([g]) == relocs + Flatten([]);
    assert [g][1..] == [];
  }

  lemma {:induction false} PlainFits(g: Group, rela: bool, run: Run, rs: seq<Reloc>, w: nat)
    requires g.flags == HAS_ADDEND && forall i :: 0 <= i < |rs| ==> RelocFits(rs[i], rela, w)
    ensures EntriesFit(g, rela, run, rs, w)
    decreases |rs|
  {
    if rs == [] {
    } else {
      PlainFits(g, rela, Run(rs[0].offset, rs[0].addend), rs[1..], w);
    }
  }
}
