/** What a request for blocks is answered with (core/memblk.c:148), in lengths of clear runs. */
module Requests {
  import opened Bits
  import opened MemoryMap
  import opened Options
  import opened Scan
  import opened ScanReach
  import opened ScanShift
  import opened Runs

  // ---------------------------------------------------------------- lengths of clear runs

  /** How many bits are clear in front of the first set one. */
  function ClearHead(bits: seq<bool>): (n: nat)
    ensures n <= |bits| && (forall k :: 0 <= k < n ==> !bits[k]) && (n < |bits| ==> bits[n])
  {
    if bits == [] || bits[0] then 0 else ClearHead(bits[1..]) + 1
  }

  /** How many bits are clear behind the last set one. */
  function ClearTail(bits: seq<bool>): (n: nat)
    ensures n <= |bits| && (forall k :: |bits| - n <= k < |bits| ==> !bits[k]) && (n < |bits| ==> bits[|bits| - n - 1])
  {
    if bits == [] || bits[|bits| - 1] then 0 else ClearTail(bits[..|bits| - 1]) + 1
  }

  /** A run that the bits in front do not have: it reaches over the `s` clear bits in the
      middle, or lies behind them. */
  lemma RunAcross(all: seq<bool>, front: seq<bool>, s: nat, behind: seq<bool>, c: nat)
    requires c > 0 && FirstFit(front, c).None?
    requires |all| == |front| + s + |behind| && front == all[..|front|] && behind == all[|front| + s..]
    requires forall k :: |front| <= k < |front| + s ==> !all[k]
    ensures FirstFit(all, c).Some? <==> c <= ClearTail(front) + s + ClearHead(behind) || FirstFit(behind, c).Some?
  {
    var f, e := FirstFit(all, c), |front| + s;
    if f.Some? {
      RunAcrossOnly(all, front, s, behind, c, f.value);
    }
    if c <= ClearTail(front) + s + ClearHead(behind) {
      var t := |front| - ClearTail(front);
      forall k | t <= k < t + c
        ensures !all[k]
      {
        if k < |front| { assert all[k] == front[k]; } else if k >= e { assert all[k] == behind[k - e]; }
      }
      assert ClearRun(all, t, c);
    }
    if FirstFit(behind, c).Some? {
      var t := FirstFit(behind, c).value;
      assert forall k :: e + t <= k < e + t + c ==> all[k] == behind[k - e];
      assert ClearRun(all, e + t, c);
    }
  }

  lemma RunAcrossOnly(all: seq<bool>, front: seq<bool>, s: nat, behind: seq<bool>, c: nat, t: nat)
    requires c > 0 && FirstFit(front, c).None? && ClearRun(all, t, c)
    requires |all| == |front| + s + |behind| && front == all[..|front|] && behind == all[|front| + s..]
    ensures c <= ClearTail(front) + s + ClearHead(behind) || FirstFit(behind, c).Some?
  {
    var e := |front| + s;
    assert forall k :: t <= k < t + c ==> !all[k];
    assert forall k :: 0 <= k < |front| ==> front[k] == all[k];
    assert forall k :: 0 <= k < |behind| ==> behind[k] == all[e + k];
    RunInFront(all, front, t, c);
    if t >= e {
      assert ClearRun(behind, t - e, c);
    }
  }

  lemma RunInFront(all: seq<bool>, front: seq<bool>, t: nat, c: nat)
    requires ClearRun(all, t, c) && front <= all
    ensures t + c <= |front| ==> ClearRun(front, t, c)
  {
  }

  // ---------------------------------------------------------------- the last word of the bitmap

  /** The bits of the last word that are no blocks. */
  function Slack(k: Kernel): nat
    requires WellSized(k)
  {
    64 * |k.bitmap| - k.count
  }

  predicate SlackClear(k: Kernel) {
    forall i :: k.count <= i < 64 * |k.bitmap| ==> !Used(k.bitmap, i)
  }

  /** They stay clear from boot through every guarded run, on every machine. */
  lemma SlackStays(boot: Kernel, ops: seq<Op>, ceiling: nat)
    requires Safe(boot, boot, ceiling) && ceiling < TWO64 && SlackClear(boot) && GuardedRun(boot, ops, ceiling)
    ensures WellSized(Run(boot, ops)) && SlackClear(Run(boot, ops)) && Slack(Run(boot, ops)) == Slack(boot)
  {
    RunSafe(boot, ops, boot, ceiling);
    var k := Run(boot, ops);
    forall i | k.count <= i < 64 * |k.bitmap|
      ensures !Used(k.bitmap, i)
    {
      assert !Covered(k.granted, i);
    }
  }

  // ---------------------------------------------------------------- requests without a free run

  /** The bits behind the bitmap, up to position `end`. */
  function Behind(k: Kernel, m: Machine, end: nat): seq<bool>
    requires 64 * |k.bitmap| <= end <= 64 * (|k.bitmap| + k.count + 1)
  {
    BitsOf(Memory(k.bitmap, k.count, m.beyond), end)[64 * |k.bitmap|..]
  }

  /** Some run of `c` clear bits is not one of blocks: the free blocks at the end, the slack and
      the clear bits behind the bitmap make it up, or it lies behind the bitmap. */
  predicate RunBehind(k: Kernel, behind: seq<bool>, c: nat)
    requires WellSized(k)
  {
    c <= ClearTail(Blocks(k)) + Slack(k) + ClearHead(behind) || FirstFit(behind, c).Some?
  }

  lemma AllParts(k: Kernel, m: Machine, end: nat, c: nat)
    requires WellSized(k) && SlackClear(k) && c > 0 && FirstFit(Blocks(k), c).None?
    requires 64 * |k.bitmap| <= end <= 64 * (|k.bitmap| + k.count + 1)
    ensures FirstFit(BitsOf(Memory(k.bitmap, k.count, m.beyond), end), c).Some? <==> RunBehind(k, Behind(k, m, end), c)
  {
    var all := BitsOf(Memory(k.bitmap, k.count, m.beyond), end);
    forall i | 0 <= i < 64 * |k.bitmap|
      ensures all[i] == Used(k.bitmap, i)
    {
      MemoryBits(k, m.beyond, i);
    }
    assert all[..k.count] == Blocks(k);
    RunAcross(all, Blocks(k), Slack(k), Behind(k, m, end), c);
  }

  lemma FoundBlocks(k: Kernel, count: nat, m: Machine)
    requires WellSized(k) && Found(k, count, m).Some?
    ensures Found(k, count, m).value + count <= k.count ==> ClearRun(Blocks(k), Found(k, count, m).value, count)
  {
    if Found(k, count, m).value + count <= k.count { FoundFree(k, count, m); }
  }

  /** A request that no run of blocks meets.  On every machine a run is answered with only if
      some run behind the blocks is long enough, and it is then one of blocks that do not exist.
      Where the shift by 64 delivers nothing, one is answered with if and only if there is such
      a run within reach. */
  lemma NoFreeRun(k: Kernel, count: nat, m: Machine)
    requires WellSized(k) && SlackClear(k) && k.count > 0 && count > 0 && FirstFit(Blocks(k), count).None?
    ensures 64 * |k.bitmap| <= Reach(Memory(k.bitmap, k.count, m.beyond), k.count) <= 64 * (k.count + 1)
    ensures Found(k, count, m).Some? ==>
              && Found(k, count, m).value + count > k.count
              && RunBehind(k, Behind(k, m, 64 * (k.count + 1)), count)
    ensures m.shift == [] ==>
              (Found(k, count, m).Some?
               <==> RunBehind(k, Behind(k, m, Reach(Memory(k.bitmap, k.count, m.beyond), k.count)), count))
  {
    var words := Memory(k.bitmap, k.count, m.beyond);
    var r := Found(k, count, m);
    if r.Some? {
      SearchHonest(words, m.shift, k.count, count);
      FoundBlocks(k, count, m);
      assert forall p :: r.value <= p < r.value + count ==> !Used(words, p);
      assert ClearRun(BitsOf(words, 64 * (k.count + 1)), r.value, count);
      AllParts(k, m, 64 * (k.count + 1), count);
    }
    if m.shift == [] {
      PlainSearch(words, k.count, count);
      AllParts(k, m, Reach(words, k.count), count);
    }
  }

  /** On every machine, a run among the words that are searched, where the shift delivers no bit,
      makes the search answer with some run. */
  lemma AnsweredAnyway(k: Kernel, count: nat, m: Machine, t: nat)
    requires WellSized(k) && count > 0 && t + count <= 64 * k.count && EdgesClear(m.shift, t, t + count)
    requires Free(Memory(k.bitmap, k.count, m.beyond), t, count)
    ensures Found(k, count, m).Some?
  {
    var words := Memory(k.bitmap, k.count, m.beyond);
    var seen := Seen(words, m.shift, k.count);
    SeenBits(words, m.shift, k.count, 0);
    forall p | t <= p < t + count
      ensures !seen[p]
    {
      assert !Used(words, p) && !EdgeBit(m.shift, p);
    }
    assert ClearRun(seen, t, count);
  }

  /** The slack alone is enough: a request for more blocks than there are in any free run, but not
      for more than the last free blocks and the slack, is answered with blocks that do not
      exist, whatever lies behind the bitmap, if the shift delivers no bit there. */
  lemma SlackOverruns(k: Kernel, count: nat, m: Machine)
    requires WellSized(k) && SlackClear(k) && k.count > 0 && count > 0 && FirstFit(Blocks(k), count).None?
    requires count <= ClearTail(Blocks(k)) + Slack(k)
    requires var t := k.count - ClearTail(Blocks(k)); EdgesClear(m.shift, t, t + count)
    ensures Found(k, count, m).Some? && Found(k, count, m).value + count > k.count
  {
    var t := k.count - ClearTail(Blocks(k));
    forall p | t <= p < t + count
      ensures !Used(Memory(k.bitmap, k.count, m.beyond), p)
    {
      MemoryBits(k, m.beyond, p);
      if p < k.count { assert !Blocks(k)[p]; }
    }
    AnsweredAnyway(k, count, m, t);
    NoFreeRun(k, count, m);
  }

  /** If everything behind the bitmap is used, a request without a free run is refused on every
      machine when it asks for more than the last free blocks and the slack; where the shift
      delivers nothing, only then. */
  lemma UsedBehind(k: Kernel, count: nat, m: Machine)
    requires WellSized(k) && SlackClear(k) && k.count > 0 && count > 0 && FirstFit(Blocks(k), count).None?
    requires |m.beyond| > k.count && forall i :: 0 <= i < |m.beyond| ==> m.beyond[i] == ONES
    ensures count > ClearTail(Blocks(k)) + Slack(k) ==> Found(k, count, m).None?
    ensures m.shift == [] ==> (Found(k, count, m).None? <==> count > ClearTail(Blocks(k)) + Slack(k))
  {
    var words, behind := Memory(k.bitmap, k.count, m.beyond), Behind(k, m, 64 * (k.count + 1));
    forall p | 0 <= p < |behind|
      ensures behind[p]
    {
      var i := 64 * |k.bitmap| + p;
      assert i / 64 == |k.bitmap| + p / 64 && words[i / 64] == ONES;
      AllOnes(i % 64);
    }
    forall t: nat ensures !ClearRun(behind, t, count) { if t < |behind| { assert behind[t]; } }
    NoFreeRun(k, count, m);
    if m.shift == [] && count <= ClearTail(Blocks(k)) + Slack(k) {
      forall p: nat ensures !EdgeBit(m.shift, p) { NoEdge(p); }
      SlackOverruns(k, count, m);
    }
  }

  /** With all blocks used and slack behind them, a request for one block is answered with the
      block behind the last, which does not exist, if and only if the shift delivers no bit at its
      position; its bit is then set as for any other. */
  lemma FullOverruns(k: Kernel, m: Machine)
    requires WellSized(k) && SlackClear(k) && k.count % 64 != 0 && forall i :: 0 <= i < k.count ==> Used(k.bitmap, i)
    ensures Found(k, 1, m) == Some(k.count) <==> !EdgeBit(m.shift, k.count)
    ensures !EdgeBit(m.shift, k.count) ==>
              && Step(k, Alloc(1, m)) == GrantStep(k, k.count, 1, m.wild)
              && Used(Step(k, Alloc(1, m)).bitmap, k.count)
  {
    var words := Memory(k.bitmap, k.count, m.beyond);
    var bits := BitsOf(words, 64 * k.count);
    forall i | 0 <= i <= k.count
      ensures bits[i] == (i < k.count)
    {
      MemoryBits(k, m.beyond, i);
    }
    assert ClearRun(bits, k.count, 1);
    forall t: nat | t < k.count ensures !ClearRun(bits, t, 1) { assert bits[t]; }
    FirstFitIs(bits, 1, Some(k.count));
    SearchForOne(words, m.shift, k.count);
    MarkedBits(k.bitmap, k.count, 1, m.wild, k.count);
  }

  // ---------------------------------------------------------------- requests with a free run

  /** The first free run of blocks is the first fit of the search's bitmap. */
  lemma FirstInMemory(k: Kernel, count: nat, m: Machine)
    requires WellSized(k) && count > 0 && FirstFit(Blocks(k), count).Some?
    ensures FirstFit(BitsOf(Memory(k.bitmap, k.count, m.beyond), 64 * k.count), count) == FirstFit(Blocks(k), count)
  {
    var all := BitsOf(Memory(k.bitmap, k.count, m.beyond), 64 * k.count);
    forall i | 0 <= i < k.count
      ensures all[i] == Used(k.bitmap, i)
    {
      MemoryBits(k, m.beyond, i);
    }
    assert all[..k.count] == Blocks(k);
    LongerStretch(all, k.count, count);
  }

  /** A request that some run of blocks meets is answered with the first such run when that is
      undisturbed; behind used blocks alone, and for one block, only then.  In general the rest
      of the run must be undisturbed and its first position not hidden. */
  lemma FreeRun(k: Kernel, count: nat, m: Machine)
    requires WellSized(k) && count > 0 && FirstFit(Blocks(k), count).Some?
    ensures var s, words := FirstFit(Blocks(k), count).value, Memory(k.bitmap, k.count, m.beyond);
            var found := Found(k, count, m) == Some(s);
            && s < k.count
            && (Undisturbed(words, m.shift, s, count) ==> found)
            && ((forall p :: 0 <= p < s ==> Used(k.bitmap, p)) ==> (found <==> Undisturbed(words, m.shift, s, count)))
            && (count == 1 ==> (found <==> !EdgeBit(m.shift, s)))
            && (found <==> RestClear(words, m.shift, s, count)
                           && (s % 64 != 0 ==> !Hidden(words, m.shift, k.count, s)))
  {
    var s, words := FirstFit(Blocks(k), count).value, Memory(k.bitmap, k.count, m.beyond);
    FirstInMemory(k, count, m);
    SearchFindsFirst(words, m.shift, k.count, count);
    if Undisturbed(words, m.shift, s, count) { SearchUndisturbed(words, m.shift, k.count, count); }
    if forall p :: 0 <= p < s ==> Used(k.bitmap, p) {
      forall p | 0 <= p < s ensures Used(words, p) { MemoryBits(k, m.beyond, p); }
      SearchBehindUsed(words, m.shift, k.count, count);
    }
    if count == 1 { SearchForOne(words, m.shift, k.count); }
  }

  /** An x86-64 machine: the shifts of the search and that of a mark of `count` blocks take their
      count modulo 64. */
  function X86(k: Kernel, count: nat, beyond: seq<Word>): (m: Machine)
    ensures Masked(Memory(k.bitmap, k.count, beyond), m.shift)
  {
    Machine(beyond, Memory(k.bitmap, k.count, beyond)[1..], Wrap64(Shl(1, count % 64) - 1))
  }

  /** The same on x86-64, in terms of what the search reads. */
  lemma FreeRunX86(k: Kernel, count: nat, beyond: seq<Word>)
    requires WellSized(k) && count > 0 && FirstFit(Blocks(k), count).Some?
    ensures var s, words := FirstFit(Blocks(k), count).value, Memory(k.bitmap, k.count, beyond);
            var found := Found(k, count, X86(k, count, beyond)) == Some(s);
            && s + count + 64 <= 64 * |words|
            && (FreeAgain(words, s, count) ==> found)
            && (found ==> RestFreeOneOn(words, s, count))
            && (s % 64 == 0 || (forall p :: 0 <= p < s ==> Used(k.bitmap, p))
                ==> (found <==> FreeAgain(words, s, count)))
            && (count == 1 ==> (found <==> !Used(words, s + 64)))
  {
    var m := X86(k, count, beyond);
    var s, words := FirstFit(Blocks(k), count).value, Memory(k.bitmap, k.count, beyond);
    FirstInMemory(k, count, m);
    MaskedSearch(words, m.shift, k.count, count);
    if forall p :: 0 <= p < s ==> Used(k.bitmap, p) {
      forall p | 0 <= p < s ensures Used(words, p) { MemoryBits(k, beyond, p); }
    }
  }

  lemma GuardedAt(k: Kernel, count: Word, m: Machine, ceiling: nat, s: nat)
    requires Found(k, count, m) == Some(s) && s + count <= k.count
    ensures Guarded(k, Alloc(count, m), ceiling) <==>
            && k.heap + SIZEOF_MEMFRAGMENT + SIZEOF_LIST_NODE <= ceiling
            && s % 64 + count <= 64 && (count == 64 ==> m.wild == ONES)
  {
  }

  /** The guard of a request on x86-64, without the search.  Where the first free run is free again
      one word on, it has to lie in one word and not to fill it; for one block, that is exactly
      where the first free block is answered with.  Where there is no free run, it is enough that
      no run behind the blocks is as long. */
  lemma GuardedX86(k: Kernel, count: Word, beyond: seq<Word>, ceiling: nat)
    requires WellSized(k) && SlackClear(k) && k.count > 0 && count > 0
    ensures var m, words := X86(k, count, beyond), Memory(k.bitmap, k.count, beyond);
            var guarded := Guarded(k, Alloc(count, m), ceiling);
            match FirstFit(Blocks(k), count)
            case Some(s) =>
              && s + count + 64 <= 64 * |words|
              && (FreeAgain(words, s, count) ==>
                    (guarded <==> k.heap + SIZEOF_MEMFRAGMENT + SIZEOF_LIST_NODE <= ceiling
                                  && s % 64 + count <= 64 && count != 64))
              && (count == 1 ==> (Found(k, 1, m) == Some(s) <==> FreeAgain(words, s, 1)))
            case None => !RunBehind(k, Behind(k, m, 64 * (k.count + 1)), count) ==> guarded
  {
    var m, words := X86(k, count, beyond), Memory(k.bitmap, k.count, beyond);
    if FirstFit(Blocks(k), count).Some? {
      var s := FirstFit(Blocks(k), count).value;
      FreeRunX86(k, count, beyond);
      if FreeAgain(words, s, count) {
        assert count == 64 ==> m.wild == 0;
        GuardedAt(k, count, m, ceiling, s);
      }
      if count == 1 { OneBlockAgain(words, s); }
    } else {
      NoFreeRun(k, count, m);
    }
  }

  lemma OneBlockAgain(words: seq<Word>, s: nat)
    requires s + 1 + 64 <= 64 * |words|
    ensures FreeAgain(words, s, 1) <==> !Used(words, s + 64)
  {
  }

  /** The guard of a request where the shift delivers nothing, without the search: the first free
      run of blocks lies in one word, or there is none and no run behind the blocks is as long. */
  lemma GuardedPlain(k: Kernel, count: Word, m: Machine, ceiling: nat)
    requires WellSized(k) && SlackClear(k) && k.count > 0 && count > 0 && m.shift == []
    ensures 64 * |k.bitmap| <= Reach(Memory(k.bitmap, k.count, m.beyond), k.count) <= 64 * (k.count + 1)
    ensures Guarded(k, Alloc(count, m), ceiling) <==>
            (match FirstFit(Blocks(k), count)
             case Some(s) =>
               && k.heap + SIZEOF_MEMFRAGMENT + SIZEOF_LIST_NODE <= ceiling
               && s % 64 + count <= 64 && (count == 64 ==> m.wild == ONES)
             case None => !RunBehind(k, Behind(k, m, Reach(Memory(k.bitmap, k.count, m.beyond), k.count)), count))
  {
    if FirstFit(Blocks(k), count).Some? {
      var s := FirstFit(Blocks(k), count).value;
      forall p: nat ensures !EdgeBit(m.shift, p) { NoEdge(p); }
      FreeRun(k, count, m);
    } else {
      NoFreeRun(k, count, m);
    }
  }
}
