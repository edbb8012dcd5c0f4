/** The kernel's memory state and its operations (core/memblk.c, core/memblk.h). */
module Allocator {
  import opened Bits
  import opened MemoryMap
  import opened Options
  import opened Ring
  import opened Runs
  import opened Scan

  const NOT_FOUND: Word := ONES

  /** `parent` is the number of the block that the C field points to. */
  datatype Memfragment = Memfragment(attributes: nat, parent: nat, offset: nat, endoffset: nat, len: Word)

  function InitMemfragment(parent: nat, offset: nat, len: Word, attributes: nat): Memfragment {
    Memfragment(attributes, parent, offset, Wrap32(offset + len - 1), len)
  }

  datatype Memblk = Memblk(fragments: Node?<Memfragment>, fragcount: int, address: Word, typ: nat)

  /** `NULL`; the fragment that describes the run; a fragment for the run at `start` that the
      block loop may have overwritten, since the heap follows the block array; or no return, as
      the 32-bit counter of the block loop never reaches the end of the run. */
  datatype Outcome = NoRun | Granted(frag: Memfragment) | Overwritten(start: nat) | Endless

  /** The block loop writes no record behind the `n` of the block array. */
  predicate LoopStaysInside(start: nat, blockcounts: nat, n: nat) {
    blockcounts <= Wrap32(start) || blockcounts <= n
  }

  // ---------------------------------------------------------------- address lookup

  /** `mem_addr_in_interval` (core/memblk.h:43): the sign bit of the two differences. */
  predicate AddrInInterval(addr: Word, lower: Word, upper: Word) {
    Or(Wrap64(addr - lower), Wrap64(upper - addr)) < 0x8000_0000_0000_0000
  }

  lemma IntervalTest(addr: Word, lower: Word, upper: Word)
    requires lower <= upper
    ensures AddrInInterval(addr, lower, upper)
       <==> lower <= addr <= upper && addr - lower < 0x8000_0000_0000_0000 && upper - addr < 0x8000_0000_0000_0000
  {
    TwoTo64();
    OrBelow(Wrap64(addr - lower), Wrap64(upper - addr), 63);
    WrapDifference(addr, lower);
    WrapDifference(upper, addr);
  }

  lemma WrapDifference(a: Word, b: Word)
    ensures Wrap64(a - b) == if a >= b then a - b else a - b + TWO64
  {
  }

  /** The test is membership in the closed interval for every address, if and only if the
      interval is shorter than 2^63. */
  lemma IntervalExact(lower: Word, upper: Word)
    requires lower <= upper
    ensures (forall a: Word :: AddrInInterval(a, lower, upper) <==> lower <= a <= upper)
       <==> upper - lower < 0x8000_0000_0000_0000
  {
    forall a: Word
      ensures AddrInInterval(a, lower, upper)
         <==> lower <= a <= upper && a - lower < 0x8000_0000_0000_0000 && upper - a < 0x8000_0000_0000_0000
    {
      IntervalTest(a, lower, upper);
    }
    assert AddrInInterval(lower, lower, upper) <==> upper - lower < 0x8000_0000_0000_0000;
  }

  /** The bounds used by `is_address_in_mmap` (core/memblk.c:44): `address` is a pointer to
      8-byte units, so `address + blocksize` is `8 * blocksize` bytes on. */
  predicate InBlock(b: Memblk, blocksize: Word, addr: Word) {
    AddrInInterval(addr, b.address, Wrap64(b.address + 8 * blocksize))
  }

  /** With 2 MiB blocks, recorded as 2048 KiB, the lookup covers the first 16 KiB of a block
      and the byte behind them. */
  lemma LookupCovers(b: Memblk, addr: Word)
    requires b.address + 16384 < TWO64
    ensures InBlock(b, 2048, addr) <==> b.address <= addr <= b.address + 16384
  {
    NoWrap64(b.address + 16384);
    IntervalTest(addr, b.address, b.address + 16384);
  }

  // ---------------------------------------------------------------- the kernel's state

  class Gmd {
    var blockBitmap: array<Word>
    var blocks: array<Memblk>
    var blocksize: Word
    var heap: Word
    ghost var granted: seq<Range>
    ghost var chunks: seq<Range>

    /** `n` zeroed block records behind a zeroed bitmap, and a heap top. */
    constructor (n: nat, heap: Word)
      requires n < TWO32
      ensures Valid() && fresh(blocks) && fresh(blockBitmap)
      ensures State() == Kernel(seq((n + 63) / 64, i => 0), n, heap, [], [])
    {
      blockBitmap := new Word[(n + 63) / 64](_ => 0);
      blocks := new Memblk[n](_ => Memblk(null, 0, 0, 0));
      blocksize, this.heap := 0, heap;
      granted, chunks := [], [];
      new;
      assert blockBitmap[..] == seq((n + 63) / 64, i => 0);
    }

    ghost predicate Valid()
      reads this
    {
      && blocks.Length < TWO32
      && blockBitmap.Length == (blocks.Length + 63) / 64
      && blockBitmap as object != blocks as object
    }

    function Length(): nat
      reads this
    {
      blocks.Length
    }

    ghost function State(): Kernel
      reads this, blockBitmap
    {
      Kernel(blockBitmap[..], Length(), heap, granted, chunks)
    }

    /** The least block whose bounds hold the address. */
    method IsAddressInMmap(address: Word) returns (res: Word)
      requires Valid()
      ensures res == NOT_FOUND ==> forall i :: 0 <= i < Length() ==> !InBlock(blocks[i], blocksize, address)
      ensures res != NOT_FOUND ==> res < Length() && InBlock(blocks[res], blocksize, address)
                                   && forall i :: 0 <= i < res ==> !InBlock(blocks[i], blocksize, address)
    {
      res := NOT_FOUND;
      var i := 0;
      while i < blocks.Length
        invariant i <= blocks.Length && res == NOT_FOUND
        invariant forall j :: 0 <= j < i ==> !InBlock(blocks[j], blocksize, address)
      {
        if AddrInInterval(address, blocks[i].address, Wrap64(blocks[i].address + 8 * blocksize)) {
          res := i;
          break;
        }
        i := i + 1;
      }
    }

    /** Bumps the heap.  Both lookups are made with the same address, so their difference
        is 0 and the marking at core/memblk.c:75 is never reached. */
    method SimpleMalloc(numberOfBytes: Word) returns (tmp: Word)
      requires Valid()
      modifies this`heap, this`chunks
      ensures Valid() && tmp == old(heap)
      ensures State() == MallocStep(old(State()), numberOfBytes)
    {
      tmp := heap;
      var presentPlace := IsAddressInMmap(tmp);
      heap := Wrap64(heap + numberOfBytes);
      chunks := chunks + [Range(tmp, numberOfBytes)];
      var presentPlace2 := IsAddressInMmap(tmp);
      assert presentPlace2 == presentPlace;
      if Wrap64(presentPlace2 - presentPlace) > 0 {
        assert false;
      }
    }

    /** `mem_bitmap_set_range` (core/memblk.h:57); a word behind the bitmap is not modelled. */
    method SetRange(num: nat, range: nat, wild: Word)
      requires Valid()
      modifies blockBitmap
      ensures State() == old(State()).(bitmap := Mark(old(State()).bitmap, num, range, wild))
    {
      ghost var before := blockBitmap[..];
      var w := num / 64;
      if w < blockBitmap.Length {
        var mask := RangeMask(num % 64, range, wild);
        OrIsWord(blockBitmap[w], mask);
        blockBitmap[w] := Or(blockBitmap[w], mask);
        assert blockBitmap[..] == before[w := Or(before[w], mask)];
      }
    }

    /** `mem_bitmap_set` (core/memblk.h:55): exactly that bit of the bitmap. */
    method SetBit(num: nat)
      requires Valid() && num < Length()
      modifies blockBitmap
      ensures State() == old(State()).(bitmap := State().bitmap)
      ensures forall i :: 0 <= i < 64 * blockBitmap.Length ==>
                Used(State().bitmap, i) == (i == num || Used(old(State()).bitmap, i))
    {
      ghost var before := blockBitmap[..];
      var w := num / 64;
      var mask := Shl(1, num % 64);
      OrIsWord(blockBitmap[w], mask);
      blockBitmap[w] := Or(blockBitmap[w], mask);
      assert blockBitmap[..] == before[w := Or(before[w], mask)];
      forall i | 0 <= i < 64 * blockBitmap.Length
        ensures Used(blockBitmap[..], i) == (i == num || Used(before, i))
      {
        if i / 64 == w {
          BitOr(before[w], mask, i % 64);
          BitOfOne(num % 64, i % 64);
        }
      }
    }

    /** `new_memblk`: the type argument is not stored. */
    method NewMemblk(i: nat, first: Node<Memfragment>)
      requires i < blocks.Length && IsRing([first])
      modifies blocks
      ensures blocks[..] == old(blocks[..])[i := old(blocks[i]).(fragments := first, fragcount := 0)]
    {
      var length := ListLength(first, [first], 0);
      blocks[i] := blocks[i].(fragments := first);
      blocks[i] := blocks[i].(fragcount := length);
    }

    /** The block loop of `alloc_memblk` (core/memblk.c:158-161): a 32-bit counter runs from
        `start` to `blockcounts`, not to `start + blockcounts`.  What it writes behind the block
        array is not modelled. */
    method ClaimBlocks(start: nat, blockcounts: nat, node: Node<Memfragment>)
      requires Valid() && blockcounts < TWO32 && IsRing([node])
      modifies blocks
      ensures forall j :: 0 <= j < Length() ==>
                blocks[j] == if Wrap32(start) <= j < blockcounts
                             then old(blocks[j]).(fragments := node, fragcount := 0) else old(blocks[j])
    {
      var i := Wrap32(start);
      while i < blockcounts
        invariant Wrap32(start) <= i && (i <= blockcounts || i == Wrap32(start))
        invariant forall j :: 0 <= j < Length() ==>
                    blocks[j] == if Wrap32(start) <= j < i
                                 then old(blocks[j]).(fragments := node, fragcount := 0) else old(blocks[j])
      {
        if i < blocks.Length { NewMemblk(i, node); }
        NoWrap32(i + 1);
        i := Wrap32(i + 1);
      }
    }

    /** The second half of `alloc_memblk` (core/memblk.c:151-164): a run found at `start` is
        described by a fragment and marked. */
    method Grant(start: nat, blockcounts: Word, attributes: nat, wild: Word)
      returns (r: Outcome, ghost list: Node?<Memfragment>)
      requires Valid()
      modifies this`heap, this`chunks, this`granted, blockBitmap, blocks
      ensures Valid() && Length() == old(Length()) && !r.NoRun?
      ensures r.Endless? <==> blockcounts >= TWO32
      ensures !r.Endless? ==> State() == GrantStep(old(State()), start, blockcounts, wild)
      ensures r.Granted? || r.Overwritten? ==>
                && list != null && fresh(list) && IsRing([list])
                && forall i :: 0 <= i < Length() ==>
                     blocks[i] == if Wrap32(start) <= i < blockcounts
                                  then old(blocks[i]).(fragments := list, fragcount := 0) else old(blocks[i])
      ensures r.Granted? ==>
                && LoopStaysInside(start, blockcounts, Length())
                && r.frag == Memfragment(attributes, start, 0, Wrap32(blocksize - 1), blocksize)
                && list.data == r.frag
      ensures r.Overwritten? ==> !LoopStaysInside(start, blockcounts, Length()) && r.start == start
    {
      list := null;
      var res := SimpleMalloc(SIZEOF_MEMFRAGMENT);
      var frag := InitMemfragment(start, 0, blocksize, attributes);
      var lRes := SimpleMalloc(SIZEOF_LIST_NODE);
      var node := new Node<Memfragment>(frag);
      ListInit(node);
      if blockcounts >= TWO32 {
        return Endless, null;
      }
      ClaimBlocks(start, blockcounts, node);
      SetRange(start, blockcounts, wild);
      granted := granted + [Range(start, blockcounts)];
      list := node;
      if !LoopStaysInside(start, blockcounts, blocks.Length) {
        return Overwritten(start), list;
      }
      return Granted(frag), list;
    }

    /** Allocates `blockcounts` blocks: `NULL` when the search finds no run, and otherwise a
        fragment for the run it finds. */
    method AllocMemblk(blockcounts: Word, attributes: nat, m: Machine)
      returns (r: Outcome, ghost list: Node?<Memfragment>)
      requires Valid()
      modifies this`heap, this`chunks, this`granted, blockBitmap, blocks
      ensures Valid() && Length() == old(Length())
      ensures var found := Found(old(State()), blockcounts, m);
              && (r.NoRun? <==> found.None?)
              && (r.Endless? <==> found.Some? && blockcounts >= TWO32)
              && (r.Granted? ==>
                    && LoopStaysInside(found.value, blockcounts, Length())
                    && r.frag == Memfragment(attributes, found.value, 0, Wrap32(blocksize - 1), blocksize)
                    && list != null && list.data == r.frag)
              && (r.Overwritten? ==> !LoopStaysInside(found.value, blockcounts, Length()) && r.start == found.value)
              && (r.Granted? || r.Overwritten? ==>
                    && list != null && fresh(list) && IsRing([list])
                    && forall i :: 0 <= i < Length() ==>
                         blocks[i] == if Wrap32(found.value) <= i < blockcounts
                                      then old(blocks[i]).(fragments := list, fragcount := 0) else old(blocks[i]))
      ensures !r.Endless? ==> State() == Step(old(State()), Alloc(blockcounts, m))
      ensures r.NoRun? ==> blocks[..] == old(blocks[..])
    {
      var words := Memory(blockBitmap[..], blocks.Length, m.beyond);
      var found := FindZeroSequence(words, blocks.Length, blockcounts, m.shift);
      assert found == Found(State(), blockcounts, m);
      if found.None? {
        return NoRun, null;
      }
      r, list := Grant(found.value, blockcounts, attributes, m.wild);
    }
  }

  lemma NoWrap32(x: int)
    requires 0 <= x < TWO32
    ensures Wrap32(x) == x
  {
  }

  /** The block loop reaches exactly the blocks of the run if and only if the run starts at
      block 0. */
  lemma BlockLoopCovers(start: nat, count: nat)
    requires count > 0
    ensures (forall i: nat :: Range(start, count).Contains(i) <==> start <= i < count) <==> start == 0
  {
    assert Range(start, count).Contains(start + count - 1);
  }

  lemma BitOfOne(n: nat, k: nat)
    requires n < 64 && k < 64
    ensures Bit(Shl(1, n), k) == (k == n)
  {
    BitShl(1, n, k);
    if k > n { ZeroBits(k - n - 1); }
  }
}
