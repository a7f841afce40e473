/** Encodings and hashes of given bytes, worked out to given numbers. */
module KnownAnswers {
  import opened Bits
  import opened CString
  import opened Sleb128
  import opened PackedRelocs
  import ElfHash

  // ---------- hashes ----------

  lemma DjbCons(h: nat, c: Char, rest: CStr, next: nat)
    requires next == 33 * h + c
    ensures ElfHash.Djb(h, [c] + rest) == ElfHash.Djb(next, rest)
  {
    assert ([c] + rest)[1..] == rest;
  }

  lemma GabiCons(h: bv32, c: Char, rest: CStr, next: bv32)
    requires ElfHash.GabiStep(h, c as bv32) == next
    ensures ElfHash.GabiFrom(h, [c] + rest) == ElfHash.GabiFrom(next, rest)
  {
    assert ([c] + rest)[1..] == rest;
  }

  /** The GNU hash of `exit`. */
  lemma GnuHashOfExit()
    ensures ElfHash.GnuHash([101, 120, 105, 116]) == 0x7c96_7e3f
  {
    DjbCons(193491051, 116, [], 6385204799);
    DjbCons(5863362, 105, [116], 193491051);
    DjbCons(177674, 120, [105, 116], 5863362);
    DjbCons(5381, 101, [120, 105, 116], 177674);
    assert [101] + ([120] + ([105] + ([116] + []))) == [101, 120, 105, 116];
  }

  /** The System V hash of `syscall`, whose last step clears the top four bits. */
  lemma SysvHashOfSyscall(name: CStr)
    requires name == [115, 121, 115, 99, 97, 108, 108]
    ensures ElfHash.GabiHash(name) == 0xb09_985c
  {
    LastFour(name[3..]);
    var n2, n1 := name[2..], name[1..];
    assert n2 == [115] + name[3..] && n1 == [121] + n2 && name == [115] + n1;
    GabiCons(0x7a9, 115, name[3..], 0x7b03);
    GabiCons(0x73, 121, n2, 0x7a9);
    GabiCons(0, 115, n1, 0x73);
  }

  lemma LastFour(name: CStr)
    requires name == [99, 97, 108, 108]
    ensures ElfHash.GabiFrom(0x7b03, name) == 0xb09_985c
  {
    LastTwo(name[2..]);
    assert name[1..] == [97] + name[2..] && name == [99] + name[1..];
    GabiCons(0x7_b093, 97, name[2..], 0x7b_0991);
    GabiCons(0x7b03, 99, name[1..], 0x7_b093);
  }

  lemma LastTwo(name: CStr)
    requires name == [108, 108]
    ensures ElfHash.GabiFrom(0x7b_0991, name) == 0xb09_985c
  {
    assert name[1..] == [108] + [] && name == [108] + name[1..];
    GabiCons(0x7b0_997c, 108, [], 0xb09_985c);
    GabiCons(0x7b_0991, 108, name[1..], 0x7b0_997c);
  }

  // ---------- numbers ----------

  /** Examples of section 7.6 of DWARF version 4. */
  lemma KnownNumbers()
    ensures IsEncoding([2]) && Signed([2]) == 2
    ensures IsEncoding([0x7e]) && Signed([0x7e]) == -2
    ensures IsEncoding([0xff, 0]) && Signed([0xff, 0]) == 127
    ensures IsEncoding([0x81, 0x7f]) && Signed([0x81, 0x7f]) == -127
    ensures IsEncoding([0x80, 1]) && Signed([0x80, 1]) == 128
    ensures IsEncoding([0xff, 0x7e]) && Signed([0xff, 0x7e]) == -129
  {
    assert [0xff, 0][1..] == [0] && [0x81, 0x7f][1..] == [0x7f] && [0x80, 1][1..] == [1] && [0xff, 0x7e][1..] == [0x7e];
  }

  // ---------- a packed section ----------

  function KnownWords(): seq<nat> {
    [4] + ([4096] + ([1, 1] + ([1301] + ([4, 1, 2, 8] + ([1559] + ([1, 12, 5, 4, 23, 1, 8, 4, 24] + [0xffff_fffe]))))))
  }

  function KnownBytes(): seq<Byte> {
    [4] + ([0x80, 0x20] + ([1, 1] + ([0x95, 0x0a] + ([4, 1, 2, 8] + ([0x97, 0x0c] +
      ([1, 12, 5, 4, 23, 1, 8, 4, 24] + [0x7e]))))))
  }

  lemma ByteCons(b: Byte, rest: seq<Byte>, word: nat, words: seq<nat>, w: nat)
    requires b < 128 && word == (if b < 64 then b else b - 128) % Pow2(w) && Encodes(rest, words, w)
    ensures Encodes([b] + rest, [word] + words, w)
  {
    var all := [b] + rest;
    assert FirstLength(all) == 1 && all[..1] == [b] && all[1..] == rest;
    assert ([word] + words)[1..] == words;
  }

  lemma PairCons(b: Byte, c: Byte, rest: seq<Byte>, word: nat, words: seq<nat>, w: nat)
    requires b >= 128 && c < 64 && word == ((b - 128) + 128 * c) % Pow2(w) && Encodes(rest, words, w)
    ensures Encodes([b, c] + rest, [word] + words, w)
  {
    var all := [b, c] + rest;
    assert all[1..] == [c] + rest && FirstLength(all[1..]) == 1;
    assert FirstLength(all) == 2 && all[..2] == [b, c] && all[2..] == rest;
    assert [b, c][1..] == [c] && Signed([c]) == c;
    assert ([word] + words)[1..] == words;
  }

  lemma SmallOne(b: Byte, rest: seq<Byte>, words: seq<nat>, w: nat)
    requires b < 64 < Pow2(w) && Encodes(rest, words, w)
    ensures Encodes([b] + rest, [b] + words, w)
  {
    DivModUnique(b, Pow2(w), 0, b);
    ByteCons(b, rest, b, words, w);
  }

  /** Bytes below 64 are numbers of their own. */
  lemma {:induction false} SmallCons(bs: seq<Byte>, rest: seq<Byte>, ns: seq<nat>, words: seq<nat>, w: nat)
    requires Encodes(rest, words, w) && Pow2(w) > 64 && |ns| == |bs|
    requires forall i :: 0 <= i < |bs| ==> bs[i] < 64 && ns[i] == bs[i]
    ensures Encodes(bs + rest, ns + words, w)
  {
    if bs == [] {
      assert bs + rest == rest && ns + words == words;
    } else {
      SmallCons(bs[1..], rest, ns[1..], words, w);
      SmallOne(bs[0], bs[1..] + rest, ns[1..] + words, w);
      assert bs + rest == [bs[0]] + (bs[1..] + rest) && ns + words == [ns[0]] + (ns[1..] + words);
    }
  }

  lemma Pow2Of32()
    ensures Pow2(32) == 0x1_0000_0000
  {
    assert Pow2(8) == 256;
    Pow2Add(8, 8);
    Pow2Add(16, 16);
  }

  lemma KnownEncodes()
    ensures Encodes(KnownBytes(), KnownWords(), 32)
  {
    Pow2Of32();
    assert Encodes([], [], 32);
    ByteCons(0x7e, [], 0xffff_fffe, [], 32);
    assert [0x7e] + [] == [0x7e] && [0xffff_fffe] + [] == [0xffff_fffe];
    GroupsEncode([0x7e], [0xffff_fffe]);
  }

  lemma GroupsEncode(rest: seq<Byte>, words: seq<nat>)
    requires Encodes(rest, words, 32)
    ensures var bs, ns := [1, 12, 5, 4, 23, 1, 8, 4, 24] + rest, [1, 12, 5, 4, 23, 1, 8, 4, 24] + words;
            Encodes([4] + ([0x80, 0x20] + ([1, 1] + ([0x95, 0x0a] + ([4, 1, 2, 8] + ([0x97, 0x0c] + bs))))),
                    [4] + ([4096] + ([1, 1] + ([1301] + ([4, 1, 2, 8] + ([1559] + ns))))), 32)
  {
    Pow2Of32();
    SmallCons([1, 12, 5, 4, 23, 1, 8, 4, 24], rest, [1, 12, 5, 4, 23, 1, 8, 4, 24], words, 32);
    FrontEncodes([1, 12, 5, 4, 23, 1, 8, 4, 24] + rest, [1, 12, 5, 4, 23, 1, 8, 4, 24] + words);
  }

  lemma FrontEncodes(bs: seq<Byte>, ns: seq<nat>)
    requires Encodes(bs, ns, 32)
    ensures Encodes([4] + ([0x80, 0x20] + ([1, 1] + ([0x95, 0x0a] + ([4, 1, 2, 8] + ([0x97, 0x0c] + bs))))),
                    [4] + ([4096] + ([1, 1] + ([1301] + ([4, 1, 2, 8] + ([1559] + ns))))), 32)
  {
    Pow2Of32();
    PairCons(0x97, 0x0c, bs, 1559, ns, 32);
    var b2, w2 := [0x97, 0x0c] + bs, [1559] + ns;
    SmallCons([4, 1, 2, 8], b2, [4, 1, 2, 8], w2, 32);
    HeadEncodes([4, 1, 2, 8] + b2, [4, 1, 2, 8] + w2);
  }

  lemma HeadEncodes(bs: seq<Byte>, ns: seq<nat>)
    requires Encodes(bs, ns, 32)
    ensures Encodes([4] + ([0x80, 0x20] + ([1, 1] + ([0x95, 0x0a] + bs))),
                    [4] + ([4096] + ([1, 1] + ([1301] + ns))), 32)
  {
    Pow2Of32();
    PairCons(0x95, 0x0a, bs, 1301, ns, 32);
    var b4, w4 := [0x95, 0x0a] + bs, [1301] + ns;
    SmallCons([1, 1], b4, [1, 1], w4, 32);
    PairCons(0x80, 0x20, [1, 1] + b4, 4096, [1, 1] + w4, 32);
    SmallCons([4], [0x80, 0x20] + ([1, 1] + b4), [4], [4096] + ([1, 1] + w4), 32);
  }

  /** The words of a group of one relocation, in front of those of the groups behind it. */
  lemma GroupCons(g: Group, r: Reloc, gs: seq<Group>, run: Run, words: seq<nat>, all: seq<nat>)
    requires g.relocs == [r] && GroupsFit(gs, true, Run(r.offset, r.addend), 32)
    requires GroupsWords(gs, true, Run(r.offset, r.addend), 32) == words
    requires var start := Run(run.offset, GroupAddend(g, run));
             && all == HeaderWords(g, run, 32, EntryWords(g.flags, true, start, r, 32, words))
             && RelocFits(r, true, 32) && g.flags < 16 && g.delta < 16 && g.info < 0x1_0000 && g.addend < 16
             && (Has(g.flags, GROUPED_BY_OFFSET_DELTA) ==> r.offset == Add(run.offset, g.delta, 32))
             && (Has(g.flags, GROUPED_BY_INFO) ==> r.info == g.info)
             && (!Has(g.flags, HAS_ADDEND) || Has(g.flags, GROUPED_BY_ADDEND) ==> r.addend == start.addend)
    ensures GroupsFit([g] + gs, true, run, 32) && GroupsWords([g] + gs, true, run, 32) == all
  {
    Pow2Of32();
    assert ([g] + gs)[1..] == gs && [r][1..] == [];
    var start := Run(run.offset, GroupAddend(g, run));
    assert RunAfter(start, [r]) == Run(r.offset, r.addend);
    assert EntriesFit(g, true, start, [r], 32);
    assert EntriesWords(g.flags, true, start, [r], 32, words) == EntryWords(g.flags, true, start, r, 32, words);
  }

  lemma Flags()
    ensures Has(1, 1) && !Has(1, 2) && !Has(1, 4) && !Has(1, 8)
    ensures !Has(2, 1) && Has(2, 2) && !Has(2, 4) && !Has(2, 8)
    ensures !Has(12, 1) && !Has(12, 2) && Has(12, 4) && Has(12, 8)
    ensures !Has(8, 1) && !Has(8, 2) && !Has(8, 4) && Has(8, 8)
  {
  }

  lemma Flat4(a: nat, b: nat, c: nat, d: nat, words: seq<nat>)
    ensures [a] + ([b] + ([c] + ([d] + words))) == [a, b, c, d] + words
  {
  }

  lemma Flat5(a: nat, b: nat, c: nat, d: nat, e: nat, words: seq<nat>)
    ensures [a] + ([b] + ([c] + ([d] + ([e] + words)))) == [a, b, c, d, e] + words
  {
  }

  /** The group of which nothing is shared. */
  lemma PlainGroup(g: Group, r: Reloc)
    requires r == Reloc(0x1014, 24, 3) && g == Group(8, 0, 0, 0, [r])
    ensures GroupsFit([g], true, Run(0x1010, 5), 32)
    ensures GroupsWords([g], true, Run(0x1010, 5), 32) == [1, 8, 4, 24, 0xffff_fffe]
  {
    Pow2Of32();
    Flags();
    assert Sub(3, 5, 32) == 0xffff_fffe && Sub(0x1014, 0x1010, 32) == 4;
    Flat5(1, 8, 4, 24, 0xffff_fffe, []);
    GroupCons(g, r, [], Run(0x1010, 5), [], [1] + ([8] + ([4] + ([24] + ([0xffff_fffe] + [])))));
    assert [g] + [] == [g];
  }

  /** The group with a shared addend. */
  lemma AddendGroup(g: Group, r: Reloc, gs: seq<Group>, words: seq<nat>)
    requires r == Reloc(0x1010, 23, 5) && g == Group(12, 0, 0, 5, [r])
    requires GroupsFit(gs, true, Run(0x1010, 5), 32) && GroupsWords(gs, true, Run(0x1010, 5), 32) == words
    ensures GroupsFit([g] + gs, true, Run(0x100c, 0), 32)
    ensures GroupsWords([g] + gs, true, Run(0x100c, 0), 32) == [1, 12, 5, 4, 23] + words
  {
    Pow2Of32();
    Flags();
    assert Sub(0x1010, 0x100c, 32) == 4 && Sub(5, 0, 32) == 5;
    Flat5(1, 12, 5, 4, 23, words);
    GroupCons(g, r, gs, Run(0x100c, 0), words, [1] + ([12] + ([5] + ([4] + ([23] + words)))));
  }

  /** The group with a shared distance. */
  lemma DistanceGroup(g: Group, r: Reloc, gs: seq<Group>, words: seq<nat>)
    requires r == Reloc(0x100c, 1559, 0) && g == Group(2, 8, 0, 0, [r])
    requires GroupsFit(gs, true, Run(0x100c, 0), 32) && GroupsWords(gs, true, Run(0x100c, 0), 32) == words
    ensures GroupsFit([g] + gs, true, Run(0x1004, 0), 32)
    ensures GroupsWords([g] + gs, true, Run(0x1004, 0), 32) == [1, 2, 8, 1559] + words
  {
    Pow2Of32();
    Flags();
    assert Add(0x1004, 8, 32) == 0x100c;
    Flat4(1, 2, 8, 1559, words);
    GroupCons(g, r, gs, Run(0x1004, 0), words, [1] + ([2] + ([8] + ([1559] + words))));
  }

  /** The group with a shared info. */
  lemma InfoGroup(g: Group, r: Reloc, gs: seq<Group>, words: seq<nat>)
    requires r == Reloc(0x1004, 1301, 0) && g == Group(1, 0, 1301, 0, [r])
    requires GroupsFit(gs, true, Run(0x1004, 0), 32) && GroupsWords(gs, true, Run(0x1004, 0), 32) == words
    ensures GroupsFit([g] + gs, true, Run(0x1000, 0), 32)
    ensures GroupsWords([g] + gs, true, Run(0x1000, 0), 32) == [1, 1, 1301, 4] + words
  {
    Pow2Of32();
    Flags();
    assert Sub(0x1004, 0x1000, 32) == 4;
    Flat4(1, 1, 1301, 4, words);
    GroupCons(g, r, gs, Run(0x1000, 0), words, [1] + ([1] + ([1301] + ([4] + words))));
  }

  /** The four relocations. */
  ghost predicate Known(relocs: seq<Reloc>) {
    relocs == [Reloc(0x1004, 1301, 0), Reloc(0x100c, 1559, 0), Reloc(0x1010, 23, 5), Reloc(0x1014, 24, 3)]
  }

  lemma KnownSectionWords(gs: seq<Group>, r: seq<Reloc>)
    requires Known(r)
    requires gs == [Group(1, 0, 1301, 0, [r[0]]), Group(2, 8, 0, 0, [r[1]]), Group(12, 0, 0, 5, [r[2]]),
                    Group(8, 0, 0, 0, [r[3]])]
    ensures GroupsFit(gs, true, Run(0x1000, 0), 32) && Flatten(gs) == r
    ensures GroupsWords(gs, true, Run(0x1000, 0), 32) ==
            [1, 1, 1301, 4] + ([1, 2, 8, 1559] + ([1, 12, 5, 4, 23] + [1, 8, 4, 24, 0xffff_fffe]))
  {
    PlainGroup(gs[3], r[3]);
    AddendGroup(gs[2], r[2], [gs[3]], [1, 8, 4, 24, 0xffff_fffe]);
    var w3: seq<nat> := [1, 12, 5, 4, 23] + [1, 8, 4, 24, 0xffff_fffe];
    DistanceGroup(gs[1], r[1], [gs[2]] + [gs[3]], w3);
    InfoGroup(gs[0], r[0], [gs[1]] + ([gs[2]] + [gs[3]]), [1, 2, 8, 1559] + w3);
    assert gs == [gs[0]] + ([gs[1]] + ([gs[2]] + [gs[3]]));
    FlattenFour(gs, r);
  }

  lemma FlattenFour(gs: seq<Group>, r: seq<Reloc>)
    requires |gs| == |r| == 4 && forall i :: 0 <= i < 4 ==> gs[i].relocs == [r[i]]
    ensures Flatten(gs) == r
  {
    assert gs[1..][1..] == gs[2..] && gs[2..][1..] == gs[3..] && gs[3..][1..] == [];
    assert Flatten(gs[3..]) == [r[3]] && Flatten(gs[2..]) == [r[2], r[3]];
    assert Flatten(gs[1..]) == [r[1], r[2], r[3]];
  }

  /** The four groups. */
  ghost function KnownGroups(r: seq<Reloc>): seq<Group>
    requires |r| == 4
  {
    [Group(1, 0, 1301, 0, [r[0]]), Group(2, 8, 0, 0, [r[1]]), Group(12, 0, 0, 5, [r[2]]), Group(8, 0, 0, 0, [r[3]])]
  }

  /** A packed section in bytes, and its relocations in numbers. */
  method KnownSection(bytes: seq<Byte>) returns (relocs: seq<Reloc>)
    requires bytes == [4, 0x80, 0x20, 1, 1, 0x95, 0x0a, 4, 1, 2, 8, 0x97, 0x0c, 1, 12, 5, 4, 23, 1, 8, 4, 24, 0x7e]
    ensures Known(relocs)
  {
    ghost var gs := IsKnown(bytes);
    relocs := DecodeAll(bytes, 32, true, gs, 4096);
  }

  lemma IsKnown(bytes: seq<Byte>) returns (gs: seq<Group>)
    requires bytes == [4, 0x80, 0x20, 1, 1, 0x95, 0x0a, 4, 1, 2, 8, 0x97, 0x0c, 1, 12, 5, 4, 23, 1, 8, 4, 24, 0x7e]
    ensures IsSection(bytes, 32, true, gs, 4096) && Known(Flatten(gs))
  {
    var r := [Reloc(0x1004, 1301, 0), Reloc(0x100c, 1559, 0), Reloc(0x1010, 23, 5), Reloc(0x1014, 24, 3)];
    gs := KnownGroups(r);
    KnownEncodes();
    KnownSectionWords(gs, r);
    SameBytes(bytes);
    SameWords();
    SectionOf(bytes, KnownWords(), gs);
  }

  lemma SectionOf(bytes: seq<Byte>, words: seq<nat>, gs: seq<Group>)
    requires Encodes(bytes, words, 32) && |Flatten(gs)| == 4 && GroupsFit(gs, true, Run(4096, 0), 32)
    requires words == [4] + ([4096] + GroupsWords(gs, true, Run(4096, 0), 32))
    ensures IsSection(bytes, 32, true, gs, 4096)
  {
    Pow2Of32();
  }

  lemma SameBytes(bytes: seq<Byte>)
    requires bytes == [4, 0x80, 0x20, 1, 1, 0x95, 0x0a, 4, 1, 2, 8, 0x97, 0x0c, 1, 12, 5, 4, 23, 1, 8, 4, 24, 0x7e]
    ensures bytes == KnownBytes()
  {
  }

  lemma SameWords()
    ensures [4] + ([4096] + ([1, 1, 1301, 4] + ([1, 2, 8, 1559] + ([1, 12, 5, 4, 23] + [1, 8, 4, 24, 0xffff_fffe]))))
         == KnownWords()
  {
  }
}
