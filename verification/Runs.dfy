/** Runs of the allocator on values: what one `simple_malloc` or `alloc_memblk` call does to
    the bitmap, the heap top and the memory handed out, and what every run keeps. */
module Runs {
  import opened Bits
  import opened MemoryMap
  import opened Options
  import opened Scan
  import opened ScanReach
  import opened ScanShift

  const SIZEOF_MEMFRAGMENT: nat := 32
  const SIZEOF_LIST_NODE: nat := 48

  /** `start .. start + len`, block numbers or bytes. */
  datatype Range = Range(start: nat, len: nat) {
    predicate Contains(i: nat) { start <= i < start + len }
  }

  ghost predicate Disjoint(a: Range, b: Range) {
    forall i: nat :: !(a.Contains(i) && b.Contains(i))
  }

  /** `count` blocks and the words of their bitmap.  `granted` and `chunks` record the block
      ranges and the heap memory handed out so far. */
  datatype Kernel = Kernel(bitmap: seq<Word>, count: nat, heap: Word, granted: seq<Range>, chunks: seq<Range>)

  /** What a call meets outside that state: the words behind the bitmap, what the undefined
      shift by 64 delivers at the word boundaries of the search, and what `(1UL << range) - 1`
      is when `range` is 64 or more. */
  datatype Machine = Machine(beyond: seq<Word>, shift: seq<Word>, wild: Word)

  datatype Op = Malloc(bytes: Word) | Alloc(count: Word, machine: Machine)

  // ---------------------------------------------------------------- single steps

  /** The memory that the search can read: it takes the number of blocks for a number of words
      and so reads on behind the bitmap. */
  function Memory(bitmap: seq<Word>, count: nat, beyond: seq<Word>): (words: seq<Word>)
    ensures |words| == |bitmap| + count + 1 && bitmap <= words
  {
    bitmap + seq(count + 1, i requires 0 <= i => if i < |beyond| then beyond[i] else 0)
  }

  /** The run that `find_zero_sequence` answers with (core/memblk.c:148). */
  function Found(k: Kernel, count: nat, m: Machine): Option<nat> {
    Search(Memory(k.bitmap, k.count, m.beyond), m.shift, k.count, count)
  }

  /** The mask of `mem_bitmap_set_range` (core/memblk.h:57). */
  function RangeMask(off: nat, range: nat, wild: Word): Word {
    Shl(if range < 64 then Wrap64(Shl(1, range) - 1) else wild, off)
  }

  /** The bitmap after `mem_bitmap_set_range(start, range)`: one word is written, or memory
      behind the bitmap. */
  function Mark(bitmap: seq<Word>, start: nat, range: nat, wild: Word): (r: seq<Word>)
    ensures |r| == |bitmap|
  {
    var w := start / 64;
    if w >= |bitmap| then bitmap
    else
      OrIsWord(bitmap[w], RangeMask(start % 64, range, wild));
      bitmap[w := Or(bitmap[w], RangeMask(start % 64, range, wild))]
  }

  function MallocStep(k: Kernel, bytes: nat): Kernel {
    k.(heap := Wrap64(k.heap + bytes), chunks := k.chunks + [Range(k.heap, bytes)])
  }

  /** The run is handed out as found, whether or not its blocks exist. */
  function GrantStep(k: Kernel, start: nat, count: nat, wild: Word): Kernel {
    var k1 := MallocStep(MallocStep(k, SIZEOF_MEMFRAGMENT), SIZEOF_LIST_NODE);
    k1.(bitmap := Mark(k.bitmap, start, count, wild), granted := k.granted + [Range(start, count)])
  }

  function Step(k: Kernel, op: Op): Kernel {
    match op
    case Malloc(bytes) => MallocStep(k, bytes)
    case Alloc(count, m) =>
      match Found(k, count, m)
      case None => k
      case Some(start) => GrantStep(k, start, count, m.wild)
  }

  /** What a caller has to check before a call: the heap stays below the ceiling, and the run
      that the search comes to first, if any, consists of blocks and lies inside one bitmap word
      (and a whole word is marked in full). */
  predicate Guarded(k: Kernel, op: Op, ceiling: nat) {
    match op
    case Malloc(bytes) => k.heap + bytes <= ceiling
    case Alloc(count, m) =>
      match Found(k, count, m)
      case None => true
      case Some(start) =>
        && start + count <= k.count
        && k.heap + SIZEOF_MEMFRAGMENT + SIZEOF_LIST_NODE <= ceiling
        && start % 64 + count <= 64 && (count == 64 ==> m.wild == ONES)
  }

  // ---------------------------------------------------------------- marking

  lemma {:induction false} LowMaskBits(c: nat, j: nat)
    requires c < 64 && j < 64
    ensures Shl(1, c) >= 1 && Bit(Shl(1, c) - 1, j) == (j < c)
  {
    ShlOne(c);
    TwoTo64();
    if j < c {
      BitComplement(0, c, j);
      ZeroBits(j);
    } else {
      BitsBelow(Pow2(c) - 1, c, j);
    }
  }

  lemma {:induction false} ShlOne(c: nat)
    requires c < 64
    ensures Shl(1, c) == Pow2(c) && Pow2(c) * 2 <= TWO64
  {
    if c != 0 {
      ShlOne(c - 1);
    }
    PowLe(c, 63);
    TwoTo64();
  }

  lemma {:induction false} PowLe(a: nat, b: nat)
    requires a <= b
    ensures Pow2(a) <= Pow2(b)
  {
    if a < b {
      PowLe(a, b - 1);
    }
  }

  lemma RangeMaskBits(off: nat, c: nat, wild: Word, j: nat)
    requires c < 64 && off < 64 && j < 64
    ensures Bit(RangeMask(off, c, wild), j) == (off <= j < off + c)
  {
    ShlOne(c);
    NoWrap64(Shl(1, c) - 1);
    BitShl(Shl(1, c) - 1, off, j);
    if off <= j { LowMaskBits(c, j - off); }
  }

  /** The bits set by one `mem_bitmap_set_range`: the part of the range in its first word. */
  lemma MarkedBits(bitmap: seq<Word>, start: nat, c: nat, wild: Word, i: nat)
    requires i < 64 * |bitmap|
    ensures var bit := Bit(RangeMask(start % 64, c, wild), i % 64);
            && Used(Mark(bitmap, start, c, wild), i) == (Used(bitmap, i) || (i / 64 == start / 64 && bit))
            && (c < 64 && i / 64 == start / 64 ==> bit == Range(start, c).Contains(i))
  {
    if i / 64 == start / 64 {
      BitOr(bitmap[start / 64], RangeMask(start % 64, c, wild), i % 64);
      if c < 64 { RangeMaskBits(start % 64, c, wild, i % 64); }
    }
  }

  ghost predicate MarksExactly(bitmap: seq<Word>, r: Range, marked: seq<Word>) {
    && |marked| == |bitmap|
    && forall i :: 0 <= i < 64 * |bitmap| ==> Used(marked, i) == (Used(bitmap, i) || r.Contains(i))
  }

  lemma WholeWord(wild: Word)
    ensures wild == ONES <==> forall j :: 0 <= j < 64 ==> Bit(wild, j)
  {
    if wild == ONES {
      forall j | 0 <= j < 64
        ensures Bit(wild, j)
      {
        AllOnes(j);
      }
    } else {
      var w := Not(wild);
      TwoTo64();
      LowestBitBelow(w, 64);
      BitNot(wild, LowestBit(w));
    }
  }

  lemma WholeWordMark(bitmap: seq<Word>, start: nat, wild: Word)
    requires Free(bitmap, start, 64) && start % 64 == 0
    ensures MarksExactly(bitmap, Range(start, 64), Mark(bitmap, start, 64, wild)) <==> wild == ONES
  {
    var marked := Mark(bitmap, start, 64, wild);
    WholeWord(wild);
    assert RangeMask(start % 64, 64, wild) == Shl(wild, 0) == wild;
    forall i | 0 <= i < 64 * |bitmap|
      ensures Used(marked, i) == (Used(bitmap, i) || (Range(start, 64).Contains(i) && Bit(wild, i % 64)))
    {
      MarkedBits(bitmap, start, 64, wild, i);
      assert Range(start, 64).Contains(i) <==> i / 64 == start / 64;
    }
    if wild == ONES {
      forall i | 0 <= i < 64 * |bitmap|
        ensures Used(marked, i) == (Used(bitmap, i) || Range(start, 64).Contains(i))
      {
        AllOnes(i % 64);
      }
    }
    if MarksExactly(bitmap, Range(start, 64), marked) {
      forall j | 0 <= j < 64
        ensures Bit(wild, j)
      {
        assert Used(marked, start + j) && (start + j) % 64 == j;
      }
    }
  }

  /** A range of free blocks is marked exactly if and only if it lies inside one word, and,
      when it is that whole word, the undefined shift happens to give all ones. */
  lemma MarkExact(bitmap: seq<Word>, start: nat, c: nat, wild: Word)
    requires c > 0 && Free(bitmap, start, c)
    ensures MarksExactly(bitmap, Range(start, c), Mark(bitmap, start, c, wild))
       <==> start % 64 + c <= 64 && (c == 64 ==> wild == ONES)
  {
    var marked := Mark(bitmap, start, c, wild);
    var last := start + c - 1;
    if start % 64 + c > 64 {
      assert last / 64 != start / 64;
      MarkedBits(bitmap, start, c, wild, last);
      assert !Used(marked, last);
    } else if c == 64 {
      WholeWordMark(bitmap, start, wild);
    } else {
      forall i | 0 <= i < 64 * |bitmap|
        ensures Used(marked, i) == (Used(bitmap, i) || Range(start, c).Contains(i))
      {
        MarkedBits(bitmap, start, c, wild, i);
      }
    }
  }

  // ---------------------------------------------------------------- safety

  ghost predicate Covered(granted: seq<Range>, i: nat) {
    exists g :: 0 <= g < |granted| && granted[g].Contains(i)
  }

  /** A bitmap of whole words, one bit for a block. */
  predicate WellSized(k: Kernel) {
    |k.bitmap| == (k.count + 63) / 64
  }

  /** Block ranges handed out are blocks, pairwise disjoint, and were free at boot; the bits
      set in the bitmap, up to the end of its last word, are those set at boot and those of
      the blocks handed out; heap memory handed out is pairwise disjoint and stays between the
      heap top at boot and the ceiling. */
  ghost predicate Safe(k: Kernel, boot: Kernel, ceiling: nat) {
    && WellSized(boot) && WellSized(k) && k.count == boot.count
    && (forall g :: 0 <= g < |k.granted| ==> 0 < k.granted[g].len && k.granted[g].start + k.granted[g].len <= k.count)
    && (forall g, i: nat :: 0 <= g < |k.granted| && k.granted[g].Contains(i) ==> !Used(boot.bitmap, i))
    && (forall g, h :: 0 <= g < h < |k.granted| ==> Disjoint(k.granted[g], k.granted[h]))
    && (forall i :: 0 <= i < 64 * |k.bitmap| ==> Used(k.bitmap, i) == (Used(boot.bitmap, i) || Covered(k.granted, i)))
    && SafeHeap(k, boot.heap, ceiling)
  }

  ghost predicate SafeHeap(k: Kernel, floor: nat, ceiling: nat) {
    && floor <= k.heap <= ceiling
    && (forall c :: 0 <= c < |k.chunks| ==> floor <= k.chunks[c].start && k.chunks[c].start + k.chunks[c].len <= k.heap)
    && (forall c, d :: 0 <= c < d < |k.chunks| ==> k.chunks[c].start + k.chunks[c].len <= k.chunks[d].start)
  }

  lemma MallocSafe(k: Kernel, bytes: nat, floor: nat, ceiling: nat)
    requires SafeHeap(k, floor, ceiling) && ceiling < TWO64
    ensures SafeHeap(MallocStep(k, bytes), floor, ceiling) <==> k.heap + bytes <= ceiling
  {
    var k' := MallocStep(k, bytes);
    assert k'.chunks[|k.chunks|] == Range(k.heap, bytes);
    if k.heap + bytes <= ceiling {
      NoWrap64(k.heap + bytes);
      assert forall c :: 0 <= c < |k'.chunks|
              ==> k'.chunks[c] == if c < |k.chunks| then k.chunks[c] else Range(k.heap, bytes);
    }
  }

  lemma GrantHeapSafe(k: Kernel, start: nat, count: nat, wild: Word, floor: nat, ceiling: nat)
    requires SafeHeap(k, floor, ceiling) && ceiling < TWO64
    ensures SafeHeap(GrantStep(k, start, count, wild), floor, ceiling)
            <==> k.heap + SIZEOF_MEMFRAGMENT + SIZEOF_LIST_NODE <= ceiling
  {
    var k1 := MallocStep(k, SIZEOF_MEMFRAGMENT);
    var k2 := MallocStep(k1, SIZEOF_LIST_NODE);
    MallocSafe(k, SIZEOF_MEMFRAGMENT, floor, ceiling);
    if k.heap + SIZEOF_MEMFRAGMENT <= ceiling {
      NoWrap64(k.heap + SIZEOF_MEMFRAGMENT);
      MallocSafe(k1, SIZEOF_LIST_NODE, floor, ceiling);
    } else {
      assert k2.chunks[|k.chunks|] == Range(k.heap, SIZEOF_MEMFRAGMENT);
    }
  }

  lemma CoveredAppend(granted: seq<Range>, r: Range, i: nat)
    ensures Covered(granted + [r], i) <==> Covered(granted, i) || r.Contains(i)
  {
    var more := granted + [r];
    if Covered(granted, i) {
      var g :| 0 <= g < |granted| && granted[g].Contains(i);
      assert more[g].Contains(i);
    }
    if r.Contains(i) {
      assert more[|granted|].Contains(i);
    }
  }

  lemma GrantSafe(k: Kernel, start: nat, count: nat, wild: Word, boot: Kernel, ceiling: nat)
    requires Safe(k, boot, ceiling) && ceiling < TWO64 && count > 0 && start + count <= k.count
             && Free(k.bitmap, start, count)
    ensures Safe(GrantStep(k, start, count, wild), boot, ceiling)
       <==> k.heap + SIZEOF_MEMFRAGMENT + SIZEOF_LIST_NODE <= ceiling
            && MarksExactly(k.bitmap, Range(start, count), Mark(k.bitmap, start, count, wild))
  {
    var k', r := GrantStep(k, start, count, wild), Range(start, count);
    GrantHeapSafe(k, start, count, wild, boot.heap, ceiling);
    forall i: nat
      ensures Covered(k'.granted, i) <==> Covered(k.granted, i) || r.Contains(i)
    {
      CoveredAppend(k.granted, r, i);
    }
    assert forall g :: 0 <= g < |k'.granted| ==> k'.granted[g] == if g < |k.granted| then k.granted[g] else r;
    forall g | 0 <= g < |k.granted|
      ensures Disjoint(k.granted[g], r)
    {
      forall i: nat
        ensures !(k.granted[g].Contains(i) && r.Contains(i))
      {
        if k.granted[g].Contains(i) { assert Covered(k.granted, i); }
      }
    }
    forall i: nat | r.Contains(i)
      ensures !Used(boot.bitmap, i)
    {
      assert !Used(k.bitmap, i);
    }
  }

  /** The blocks of the bitmap, one bit each. */
  function Blocks(k: Kernel): seq<bool>
    requires WellSized(k)
  {
    BitsOf(k.bitmap, k.count)
  }

  lemma MemoryBits(k: Kernel, beyond: seq<Word>, i: nat)
    requires i < 64 * |k.bitmap|
    ensures Used(Memory(k.bitmap, k.count, beyond), i) == Used(k.bitmap, i)
  {
    assert Memory(k.bitmap, k.count, beyond)[i / 64] == k.bitmap[i / 64];
  }

  /** Whatever the machine, a run of blocks that is found is free. */
  lemma FoundFree(k: Kernel, count: nat, m: Machine)
    requires WellSized(k) && Found(k, count, m).Some? && Found(k, count, m).value + count <= k.count
    ensures count > 0 && Free(k.bitmap, Found(k, count, m).value, count)
  {
    var words, start := Memory(k.bitmap, k.count, m.beyond), Found(k, count, m).value;
    SearchHonest(words, m.shift, k.count, count);
    forall p | start <= p < start + count
      ensures !Used(k.bitmap, p)
    {
      MemoryBits(k, m.beyond, p);
    }
  }

  /** On every machine, one call keeps safety if and only if its guard holds. */
  lemma StepSafe(k: Kernel, op: Op, boot: Kernel, ceiling: nat)
    requires Safe(k, boot, ceiling) && ceiling < TWO64
    ensures Safe(Step(k, op), boot, ceiling) <==> Guarded(k, op, ceiling)
  {
    match op
    case Malloc(bytes) =>
      MallocKeeps(k, bytes, boot, ceiling);
    case Alloc(count, m) =>
      if Found(k, count, m).Some? {
        var start := Found(k, count, m).value;
        if start + count <= k.count {
          FoundFree(k, count, m);
          GrantSafe(k, start, count, m.wild, boot, ceiling);
          MarkExact(k.bitmap, start, count, m.wild);
        } else {
          assert Step(k, op).granted[|k.granted|] == Range(start, count);
        }
      }
  }

  lemma MallocKeeps(k: Kernel, bytes: nat, boot: Kernel, ceiling: nat)
    requires Safe(k, boot, ceiling) && ceiling < TWO64
    ensures Safe(MallocStep(k, bytes), boot, ceiling) <==> k.heap + bytes <= ceiling
  {
    MallocSafe(k, bytes, boot.heap, ceiling);
  }

  // ---------------------------------------------------------------- runs

  function Run(k: Kernel, ops: seq<Op>): Kernel
    decreases |ops|
  {
    if ops == [] then k else Run(Step(k, ops[0]), ops[1..])
  }

  /** Every state of the run is safe. */
  ghost predicate SafeRun(k: Kernel, ops: seq<Op>, boot: Kernel, ceiling: nat)
    decreases |ops|
  {
    Safe(k, boot, ceiling) && (ops != [] ==> SafeRun(Step(k, ops[0]), ops[1..], boot, ceiling))
  }

  /** Every call of the run is made with its guard. */
  predicate GuardedRun(k: Kernel, ops: seq<Op>, ceiling: nat)
    decreases |ops|
  {
    ops == [] || (Guarded(k, ops[0], ceiling) && GuardedRun(Step(k, ops[0]), ops[1..], ceiling))
  }

  /** On every machine, a run from a safe state is safe throughout if and only if every call is
      guarded; and then it ends in a safe state. */
  lemma {:induction false} RunSafe(k: Kernel, ops: seq<Op>, boot: Kernel, ceiling: nat)
    requires Safe(k, boot, ceiling) && ceiling < TWO64
    ensures SafeRun(k, ops, boot, ceiling) <==> GuardedRun(k, ops, ceiling)
    ensures GuardedRun(k, ops, ceiling) ==> Safe(Run(k, ops), boot, ceiling)
    decreases |ops|
  {
    if ops != [] {
      StepSafe(k, ops[0], boot, ceiling);
      if Guarded(k, ops[0], ceiling) {
        RunSafe(Step(k, ops[0]), ops[1..], boot, ceiling);
      }
    }
  }

  /** Whatever the calls and the machine, nothing handed out is ever taken back: the records
      only grow and set bits stay set. */
  lemma {:induction false} NothingTakenBack(k: Kernel, ops: seq<Op>)
    ensures var k' := Run(k, ops);
            && k.granted <= k'.granted && k.chunks <= k'.chunks && |k.bitmap| == |k'.bitmap|
            && forall i :: 0 <= i < 64 * |k.bitmap| && Used(k.bitmap, i) ==> Used(k'.bitmap, i)
    decreases |ops|
  {
    if ops != [] {
      StepGrows(k, ops[0]);
      NothingTakenBack(Step(k, ops[0]), ops[1..]);
    }
  }

  lemma StepGrows(k: Kernel, op: Op)
    ensures var k' := Step(k, op);
            && k.granted <= k'.granted && k.chunks <= k'.chunks && |k.bitmap| == |k'.bitmap|
            && forall i :: 0 <= i < 64 * |k.bitmap| && Used(k.bitmap, i) ==> Used(k'.bitmap, i)
  {
    if op.Alloc? && Found(k, op.count, op.machine).Some? {
      var start := Found(k, op.count, op.machine).value;
      forall i | 0 <= i < 64 * |k.bitmap| && Used(k.bitmap, i)
        ensures Used(Step(k, op).bitmap, i)
      {
        MarkedBits(k.bitmap, start, op.count, op.machine.wild, i);
      }
    }
  }
}
