/** Short runs from boot states that go wrong without their guard. */
module BootRuns {
  import opened Allocator
  import opened Bits
  import opened Boot
  import opened MemoryMap
  import opened Options
  import opened Requests
  import opened Runs
  import opened Scan
  import opened ScanShift

  /** A firmware map with one RAM range. */
  function OneRange(base: Word, length: Word): (table: seq<Entry>)
    ensures |table| == 32
  {
    [Entry(base, length, RAM)] + seq(31, i => Entry(0, 0, 0))
  }

  lemma OneRangeKept(base: Word, length: Word)
    ensures Kept(OneRange(base, length)) == Classify(Entry(base, length, RAM))
  {
    var table := OneRange(base, length);
    assert table[1..][0] == Entry(0, 0, 0);
    assert Kept(table[1..]) == [];
  }

  lemma OneRangeBlocks(base: Word, length: Word, n: nat)
    requires PageCount(base, length) == n && 0 < n < TWO32
    ensures BlocksOf(Kept(OneRange(base, length))) == seq(n, i => base + PAGE * i)
  {
    OneRangeKept(base, length);
    var r := Record(base, n, 2048, RAM);
    assert Kept(OneRange(base, length)) == [r] && [r][..0] == [];
    assert BlocksOf([]) == [];
    assert RecordBlocks(r) == seq(n, i => base + PAGE * i);
    assert BlocksOf([r]) == [] + RecordBlocks(r);
  }

  /** The end of the core image in the examples. */
  const EOC: Word := CORE_BASE + 0x13_0000

  lemma CeilingAt(low: nat)
    requires 0 < low <= PAGE
    ensures PageAlign(CORE_BASE + low) == CORE_BASE + PAGE
  {
    var v := CORE_BASE + low + PAGE - 1;
    NoWrap64(v);
    DivUnique(v, PAGE, 0x7FF_FC00_0001, low - 1);
    assert CORE_BASE == PAGE * 0x7FF_FC00_0000;
  }

  /** Exactly the first `u` bits of the bitmap are set. */
  ghost predicate UsedUpTo(k: Kernel, u: nat) {
    WellSized(k) && forall i :: 0 <= i < 64 * |k.bitmap| ==> Used(k.bitmap, i) == (i < u)
  }

  lemma NextFree(k: Kernel, u: nat, c: nat)
    requires UsedUpTo(k, u) && c > 0 && u + c <= k.count
    ensures FirstFit(Blocks(k), c) == Some(u)
  {
    assert ClearRun(Blocks(k), u, c);
    forall t: nat | t < u ensures !ClearRun(Blocks(k), t, c) { assert Blocks(k)[t]; }
    FirstFitIs(Blocks(k), c, Some(u));
  }

  lemma NextGrantIs(k: Kernel, u: nat, c: Word, m: Machine)
    requires UsedUpTo(k, u) && 0 < c && u + c <= k.count && EdgesClear(m.shift, u, u + c)
    ensures Step(k, Alloc(c, m)) == GrantStep(k, u, c, m.wild)
  {
    NextFree(k, u, c);
    UndisturbedRun(Memory(k.bitmap, k.count, m.beyond), m.shift, u, c);
    FreeRun(k, c, m);
  }

  // A request of `c` blocks behind the first `u` ones marks them in the word of block `u`, which
  // ends at `end` or goes on.
  lemma NextGrant(k: Kernel, u: nat, c: Word, m: Machine, end: nat) returns (k': Kernel)
    requires UsedUpTo(k, u) && 0 < c < 64 && u + c <= k.count && EdgesClear(m.shift, u, u + c)
    requires end == if u % 64 + c <= 64 then u + c else (u / 64 + 1) * 64
    ensures k' == Step(k, Alloc(c, m))
    ensures k'.granted == k.granted + [Range(u, c)] && k'.count == k.count && UsedUpTo(k', end)
  {
    NextGrantIs(k, u, c, m);
    k' := Step(k, Alloc(c, m));
    forall i | 0 <= i < 64 * |k'.bitmap|
      ensures Used(k'.bitmap, i) == (i < end)
    {
      MarkedBits(k.bitmap, u, c, m.wild, i);
      assert i / 64 == u / 64 <==> u / 64 * 64 <= i < (u / 64 + 1) * 64;
    }
  }

  lemma GrantChunks(k: Kernel, u: nat, c: nat, wild: Word)
    requires k.heap + SIZEOF_MEMFRAGMENT + SIZEOF_LIST_NODE < TWO64
    ensures var k' := GrantStep(k, u, c, wild);
            && k'.heap == k.heap + SIZEOF_MEMFRAGMENT + SIZEOF_LIST_NODE
            && k'.chunks == k.chunks + [Range(k.heap, SIZEOF_MEMFRAGMENT)]
                            + [Range(k.heap + SIZEOF_MEMFRAGMENT, SIZEOF_LIST_NODE)]
  {
    NoWrap64(k.heap + SIZEOF_MEMFRAGMENT);
    NoWrap64(k.heap + SIZEOF_MEMFRAGMENT + SIZEOF_LIST_NODE);
  }

  // ---------------------------------------------------------------- a block handed out twice

  /** 67 blocks from 1 MiB on: the first holds the core and is used, the others are free. */
  function ManyBlocks(): seq<Entry> { OneRange(0x10_0000, 0x870_0000) }

  lemma ManyBlocksLayout()
    ensures PageCount(0x10_0000, 0x870_0000) == 67
    ensures LayoutOf(EOC, 67).heap == CORE_BASE + 0x13_0C60
    ensures PageAlign(CORE_BASE + 0x13_0C60) == CORE_BASE + 0x20_0000
  {
    CeilingAt(0x13_0C60);
    assert Align1K(EOC) == EOC && Align1K(EOC + 8 * MemBitSize(67)) == CORE_BASE + 0x13_0400;
  }

  lemma ManyBlocksBoot(k: Kernel)
    requires IsBoot(k, ManyBlocks(), EOC)
    ensures k.count == 67 && UsedUpTo(k, 1) && |BlocksOf(Kept(ManyBlocks()))| == 67
  {
    ManyBlocksLayout();
    OneRangeBlocks(0x10_0000, 0x870_0000, 67);
    var addresses := BlocksOf(Kept(ManyBlocks()));
    forall i | 0 <= i < 64 * |k.bitmap|
      ensures Used(k.bitmap, i) == (i < 1)
    {
      if i < 67 {
        assert addresses[i] == 0x10_0000 + PAGE * i;
        LinearIs(addresses[i]);
      }
    }
  }

  /** Three requests after boot, of 62, 2 and 1 blocks, on every machine whose shift delivers no
      bit at the positions granted: the second crosses a word boundary and is marked in its
      first word only, so the third is given a block of the second. */
  lemma DoubleGrant(k: Kernel, m1: Machine, m2: Machine, m3: Machine)
    requires IsBoot(k, ManyBlocks(), EOC)
    requires EdgesClear(m1.shift, 1, 63) && EdgesClear(m2.shift, 63, 65) && EdgesClear(m3.shift, 64, 65)
    ensures var r := Run(k, [Alloc(62, m1), Alloc(2, m2), Alloc(1, m3)]);
            && r.granted == [Range(1, 62), Range(63, 2), Range(64, 1)]
            && !MemoryApart(r, BlocksOf(Kept(ManyBlocks())))
  {
    ManyBlocksBoot(k);
    ThreeGrants(k, m1, m2, m3);
    SharedBlock(Run(k, [Alloc(62, m1), Alloc(2, m2), Alloc(1, m3)]), BlocksOf(Kept(ManyBlocks())), 1, 2, 64);
  }

  // On x86-64 the shift delivers the bits one word on.
  lemma NoEdgesX86(k: Kernel, u: nat, lo: nat, hi: nat, c: nat, beyond: seq<Word>)
    requires UsedUpTo(k, u) && k.count == 67 && u <= lo + 64 && hi <= 65
    requires |beyond| > 0 && !Bit(beyond[0], 0)
    ensures EdgesClear(X86(k, c, beyond).shift, lo, hi)
  {
    var words := Memory(k.bitmap, k.count, beyond);
    forall p | lo <= p < hi
      ensures !EdgeBit(X86(k, c, beyond).shift, p)
    {
      MaskedEdge(words, X86(k, c, beyond).shift, p);
      if p + 64 < 128 { MemoryBits(k, beyond, p + 64); } else { assert words[2] == beyond[0]; }
    }
  }

  /** The same on x86-64, as long as the bit behind the bitmap is clear. */
  lemma DoubleGrantX86(k: Kernel, beyond: seq<Word>) returns (a: Op, b: Op, c: Op)
    requires IsBoot(k, ManyBlocks(), EOC) && |beyond| > 0 && !Bit(beyond[0], 0)
    ensures a == Alloc(62, X86(k, 62, beyond)) && b == Alloc(2, X86(Step(k, a), 2, beyond))
    ensures c == Alloc(1, X86(Step(Step(k, a), b), 1, beyond))
    ensures !MemoryApart(Run(k, [a, b, c]), BlocksOf(Kept(ManyBlocks())))
  {
    ManyBlocksBoot(k);
    a := Alloc(62, X86(k, 62, beyond));
    NoEdgesX86(k, 1, 1, 63, 62, beyond);
    var k1 := NextGrant(k, 1, 62, X86(k, 62, beyond), 63);
    b := Alloc(2, X86(k1, 2, beyond));
    NoEdgesX86(k1, 63, 63, 65, 2, beyond);
    var k2 := NextGrant(k1, 63, 2, X86(k1, 2, beyond), 64);
    c := Alloc(1, X86(k2, 1, beyond));
    NoEdgesX86(k2, 64, 64, 65, 1, beyond);
    DoubleGrant(k, X86(k, 62, beyond), X86(k1, 2, beyond), X86(k2, 1, beyond));
  }

  lemma ThreeGrants(k: Kernel, m1: Machine, m2: Machine, m3: Machine)
    requires UsedUpTo(k, 1) && k.count == 67 && k.granted == []
    requires EdgesClear(m1.shift, 1, 63) && EdgesClear(m2.shift, 63, 65) && EdgesClear(m3.shift, 64, 65)
    ensures Run(k, [Alloc(62, m1), Alloc(2, m2), Alloc(1, m3)]).granted == [Range(1, 62), Range(63, 2), Range(64, 1)]
  {
    var k1 := NextGrant(k, 1, 62, m1, 63);
    var k2 := LastGrants(k1, m2, m3);
    RunOfThree(k, k1, k2, Alloc(62, m1), Alloc(2, m2), Alloc(1, m3));
  }

  lemma LastGrants(k1: Kernel, m2: Machine, m3: Machine) returns (k2: Kernel)
    requires UsedUpTo(k1, 63) && k1.count == 67 && EdgesClear(m2.shift, 63, 65) && EdgesClear(m3.shift, 64, 65)
    ensures k2 == Step(k1, Alloc(2, m2))
            && Step(k2, Alloc(1, m3)).granted == k1.granted + [Range(63, 2)] + [Range(64, 1)]
  {
    k2 := NextGrant(k1, 63, 2, m2, 64);
    var k3 := NextGrant(k2, 64, 1, m3, 65);
  }

  lemma RunOfThree(k: Kernel, k1: Kernel, k2: Kernel, a: Op, b: Op, c: Op)
    requires k1 == Step(k, a) && k2 == Step(k1, b)
    ensures Run(k, [a, b, c]) == Step(k2, c)
  {
    RunFirst(k, a, [b, c]);
    RunFirst(k1, b, [c]);
    RunFirst(k2, c, []);
    assert [a] + [b, c] == [a, b, c] && [b] + [c] == [b, c] && [c] + [] == [c];
  }

  lemma RunFirst(k: Kernel, a: Op, rest: seq<Op>)
    ensures Run(k, [a] + rest) == Run(Step(k, a), rest)
  {
    assert ([a] + rest)[1..] == rest;
  }

  lemma SharedBlock(k: Kernel, addresses: seq<nat>, g: nat, h: nat, i: nat)
    requires g < h < |k.granted| && i < |addresses| && k.granted[g].Contains(i) && k.granted[h].Contains(i)
    ensures !MemoryApart(k, addresses)
  {
    var memory := BlockMemory(addresses[i]);
    assert memory.Contains(memory.start) && !Disjoint(memory, memory);
  }

  // ---------------------------------------------------------------- one free block

  /** One block, at 2 MiB, right at the ceiling of the heap. */
  function OneBlock(): seq<Entry> { OneRange(0x20_0000, 0x20_0000) }

  lemma OneBlockLayout()
    ensures PageCount(0x20_0000, 0x20_0000) == 1
    ensures LayoutOf(EOC, 1).heap == CORE_BASE + 0x13_0420
    ensures PageAlign(CORE_BASE + 0x13_0420) == CORE_BASE + 0x20_0000 == Linear(0x20_0000)
  {
    CeilingAt(0x13_0420);
    LinearIs(0x20_0000);
    assert Align1K(EOC) == EOC && Align1K(EOC + 8 * MemBitSize(1)) == CORE_BASE + 0x13_0400;
  }

  lemma OneBlockBoot(k: Kernel)
    requires IsBoot(k, OneBlock(), EOC)
    ensures k.count == 1 && UsedUpTo(k, 0) && BlocksOf(Kept(OneBlock())) == [0x20_0000]
    ensures k.heap == CORE_BASE + 0x13_0420 && PageAlign(k.heap) == CORE_BASE + 0x20_0000 == Linear(0x20_0000)
  {
    OneBlockLayout();
    OneRangeBlocks(0x20_0000, 0x20_0000, 1);
    assert BlocksOf(Kept(OneBlock())) == [0x20_0000];
  }

  /** Right after boot there is one block, and it is free.  A request for up to 64 blocks is
      answered with as many from block 0 on, whatever lies behind the bitmap, if and only if the
      shift delivers no bit at their positions; from two on, the state is then no longer safe. */
  lemma RequestsAtBoot(k: Kernel, c: Word, m: Machine)
    requires IsBoot(k, OneBlock(), EOC) && 0 < c <= 64
    ensures EdgesClear(m.shift, 0, c) <==> Step(k, Alloc(c, m)).granted == [Range(0, c)]
    ensures c > 1 && EdgesClear(m.shift, 0, c) ==> !Safe(Step(k, Alloc(c, m)), k, PageAlign(k.heap))
  {
    OneBlockBoot(k);
    var words := Memory(k.bitmap, 1, m.beyond);
    var bits := BitsOf(words, 64);
    forall i | 0 <= i < 64 ensures !bits[i] { MemoryBits(k, m.beyond, i); }
    assert ClearRun(bits, 0, c);
    FirstFitIs(bits, c, Some(0));
    SearchFindsFirst(words, m.shift, 1, c);
    var k' := Step(k, Alloc(c, m));
    if Found(k, c, m).Some? {
      assert k'.granted == [Range(Found(k, c, m).value, c)];
      assert k'.granted[0] == Range(Found(k, c, m).value, c);
    }
  }

  /** After boot the block is handed out and then heap memory: the two are apart if and only if
      the heap ends at or below the page boundary above the boot heap. */
  lemma HeapMeetsBlock(k: Kernel, m: Machine, bytes: Word)
    requires IsBoot(k, OneBlock(), EOC) && !EdgeBit(m.shift, 0) && bytes > 0
    ensures MemoryApart(Run(k, [Alloc(1, m), Malloc(bytes)]), BlocksOf(Kept(OneBlock())))
       <==> k.heap + SIZEOF_MEMFRAGMENT + SIZEOF_LIST_NODE + bytes <= PageAlign(k.heap)
  {
    OneBlockBoot(k);
    var k1 := NextGrant(k, 0, 1, m, 1);
    NextGrantIs(k, 0, 1, m);
    var a, b := Alloc(1, m), Malloc(bytes);
    var addresses := BlocksOf(Kept(OneBlock()));
    RunFirst(k, a, [b]);
    RunFirst(k1, b, []);
    assert [a] + [b] == [a, b] && [b] + [] == [b];
    AfterOneBlock(k, k1, m.wild);
    HeapApart(k1, addresses, bytes);
    assert k1.granted[0].Contains(0) && addresses[0] == 0x20_0000;
  }

  // One grant, and all heap memory handed out ends at the heap top, below the blocks granted.
  lemma OneGrantApart(k: Kernel, addresses: seq<nat>)
    requires |k.granted| <= 1 && BelowBlocks(k, addresses, k.heap)
    requires forall c :: 0 <= c < |k.chunks| ==> k.chunks[c].start + k.chunks[c].len <= k.heap
    ensures MemoryApart(k, addresses)
  {
  }

  lemma AfterOneBlock(k: Kernel, k1: Kernel, wild: Word)
    requires k.heap == CORE_BASE + 0x13_0420 && k.granted == [] && k.chunks == [] && k1 == GrantStep(k, 0, 1, wild)
    requires Linear(0x20_0000) == CORE_BASE + 0x20_0000
    ensures k1.heap == k.heap + SIZEOF_MEMFRAGMENT + SIZEOF_LIST_NODE
    ensures MemoryApart(k1, [0x20_0000]) && BelowBlocks(k1, [0x20_0000], k1.heap)
  {
    GrantChunks(k, 0, 1, wild);
    OneGrantApart(k1, [0x20_0000]);
  }
}
