/** The boot sequence: `Start_Kernel` (core/main.c:56-88) and the expansion of the memory
    configuration into blocks (core/init/x86_64/BIOS/memory.h:56-77). */
module Boot {
  import opened Allocator
  import opened Bits
  import opened Coverage
  import opened MemoryMap
  import opened Requests
  import opened Runs
  import opened Scan

  const CORE_BASE: Word := 0xFFFF_8000_0000_0000

  /** `__CORE_LINEAR_ADDR` (core/init/x86_64/BIOS/defines.h:25). */
  function Linear(physical: nat): Word { Wrap64(physical + CORE_BASE) }

  // ---------------------------------------------------------------- sizes

  /** `mem_1k_align` (core/memblk.h:37) */
  function Align1K(a: nat): (r: nat)
    ensures a <= r < a + 1024 && r % 1024 == 0
  {
    (a + 1023) / 1024 * 1024
  }

  /** `mem_align(a, 8)` (core/memblk.h:39) */
  function Align8(a: nat): (r: nat)
    ensures a <= r < a + 8 && r % 8 == 0
  {
    (a + 7) / 8 * 8
  }

  /** `mem_bit_size` (core/memblk.h:41): the bytes of a bitmap of `n` bits, in whole words. */
  function MemBitSize(n: nat): (r: nat)
    ensures r == 8 * ((n + 63) / 64) && n <= 8 * r < n + 64
  {
    (n + 63) / 8 / 8 * 8
  }

  const SIZEOF_MEMBLK: nat := 32

  // ---------------------------------------------------------------- memblk_init

  /** The first `i` blocks are initialised and marked used when they lie below the page
      above the heap top; the rest of the bitmap, to the end of its last word, is still clear. */
  ghost predicate Expanded(g: Gmd, addresses: seq<nat>, i: nat)
    requires g.Valid()
    reads g, g.blocks, g.blockBitmap
  {
    && i <= g.Length() && i <= |addresses|
    && (forall m :: 0 <= m < i ==> g.blocks[m] == Memblk(null, 0, Linear(addresses[m]), 1))
    && (forall m :: 0 <= m < 64 * |g.State().bitmap| ==>
          Used(g.State().bitmap, m) == (m < i && Linear(addresses[m]) < PageAlign(g.heap)))
  }

  method InitBlock(g: Gmd, ghost addresses: seq<nat>, i: nat, address: Word)
    requires g.Valid() && Expanded(g, addresses, i) && i < g.Length() && i < |addresses|
    requires address == Linear(addresses[i])
    modifies g.blocks, g.blockBitmap
    ensures g.Valid() && Expanded(g, addresses, i + 1)
  {
    g.blocks[i] := g.blocks[i].(address := address);
    g.blocks[i] := g.blocks[i].(typ := 1);
    g.blocks[i] := g.blocks[i].(fragments := null);
    g.blocks[i] := g.blocks[i].(fragcount := 0);
    if g.blocks[i].address < PageAlign(g.heap) {
      g.SetBit(i);
    }
  }

  /** One record of the configuration (core/init/x86_64/BIOS/memory.h:61-76). */
  method ExpandRecord(g: Gmd, r: Record, start: nat, ghost addresses: seq<nat>) returns (i: nat)
    requires g.Valid() && (r.typ == RAM ==> r.size == 2048) && Expanded(g, addresses, start)
    requires start + |RecordBlocks(r)| <= |addresses| == g.Length()
    requires addresses[start..start + |RecordBlocks(r)|] == RecordBlocks(r)
    requires start > 0 ==> g.blocksize == 2048
    modifies g`blocksize, g.blocks, g.blockBitmap
    ensures i == start + |RecordBlocks(r)| && (i > 0 ==> g.blocksize == 2048)
    ensures g.Valid() && Expanded(g, addresses, i)
  {
    i := start;
    if r.typ == 1 {
      g.blocksize := r.size;
      assert g.State() == old(g.State());
      var l := r.len % TWO32;
      var k := 0;
      while k < l
        invariant 0 <= k <= l && i == start + k
        invariant g.Valid() && Expanded(g, addresses, i) && g.blocksize == 2048
      {
        assert addresses[i] == RecordBlocks(r)[k];
        InitBlock(g, addresses, i, Linear(r.addr + 1024 * r.size * k));
        k, i := k + 1, i + 1;
      }
    }
  }

  predicate RamSized(records: seq<Record>) {
    forall n :: 0 <= n < |records| && records[n].typ == RAM ==> records[n].size == 2048
  }

  // The record at `j` expanded.
  method ExpandNext(g: Gmd, ghost records: seq<Record>, r: Record, ghost j: nat, start: nat) returns (i: nat)
    requires g.Valid() && RamSized(records) && j < |records| && r == records[j]
    requires g.Length() == |BlocksOf(records)| && start == |BlocksOf(records[..j])|
    requires Expanded(g, BlocksOf(records), start) && (start > 0 ==> g.blocksize == 2048)
    modifies g`blocksize, g.blocks, g.blockBitmap
    ensures i == |BlocksOf(records[..j + 1])| && (i > 0 ==> g.blocksize == 2048)
    ensures g.Valid() && Expanded(g, BlocksOf(records), i)
  {
    RecordSlice(records, j);
    i := ExpandRecord(g, r, start, BlocksOf(records));
  }

  method MemblkInit(g: Gmd, src: MemConfig)
    requires g.Valid() && src.counts <= src.blocks.Length && RamSized(src.blocks[..src.counts])
    requires g.Length() == |BlocksOf(src.blocks[..src.counts])|
    requires forall m :: 0 <= m < 64 * |g.State().bitmap| ==> !Used(g.State().bitmap, m)
    modifies g`blocksize, g.blocks, g.blockBitmap
    ensures g.Valid() && g.State() == old(g.State()).(bitmap := g.State().bitmap)
    ensures Expanded(g, BlocksOf(src.blocks[..src.counts]), g.Length())
    ensures g.Length() > 0 ==> g.blocksize == 2048
  {
    ghost var records := src.blocks[..src.counts];
    ghost var addresses := BlocksOf(records);
    var i, j := 0, 0;
    assert Expanded(g, addresses, 0);
    while j < src.counts
      invariant 0 <= j <= src.counts
      invariant g.Valid() && i == |BlocksOf(records[..j])| && Expanded(g, addresses, i)
      invariant i > 0 ==> g.blocksize == 2048
    {
      i := ExpandNext(g, records, src.blocks[j], j, i);
      j := j + 1;
    }
    assert records[..j] == records;
  }

  lemma RecordSlice(records: seq<Record>, j: nat)
    requires j < |records|
    ensures var start := |BlocksOf(records[..j])|;
            var end := start + |RecordBlocks(records[j])|;
            && end == |BlocksOf(records[..j + 1])| <= |BlocksOf(records)|
            && BlocksOf(records)[start..end] == RecordBlocks(records[j])
  {
    BlocksUpTo(records, j + 1);
    assert records[..j + 1][..j] == records[..j];
    var before, more := BlocksOf(records[..j]), RecordBlocks(records[j]);
    assert BlocksOf(records[..j + 1]) == before + more;
    assert BlocksOf(records)[..|before| + |more|] == before + more;
  }

  lemma {:induction false} BlocksUpTo(records: seq<Record>, n: nat)
    requires n <= |records|
    ensures BlocksOf(records[..n]) <= BlocksOf(records)
    decreases |records|
  {
    if n < |records| {
      BlocksUpTo(records[..|records| - 1], n);
      assert records[..|records| - 1][..n] == records[..n];
    } else {
      assert records[..n] == records;
    }
  }

  // ---------------------------------------------------------------- Start_Kernel

  /** Where the boot sequence puts things; sizes in bytes. */
  datatype Layout = Layout(eoc: Word, bitmap: Word, bitmapBytes: nat, blocks: Word, blocksBytes: nat, heap: Word)

  /** Core image, bitmap, block array and heap ascend without overlap, and bitmap and block
      array are large enough for `n` blocks. */
  predicate Ascending(at: Layout, n: nat) {
    && at.eoc <= at.bitmap && at.bitmap % 1024 == 0
    && at.bitmap + at.bitmapBytes <= at.blocks && at.blocks % 1024 == 0
    && at.blocks + at.blocksBytes == at.heap
    && 8 * at.bitmapBytes >= n && at.bitmapBytes == 8 * ((n + 63) / 64)
    && at.blocksBytes >= SIZEOF_MEMBLK * n
  }

  /** The addresses that `Start_Kernel` comes to (core/main.c:65-77).  `block_bitmap +
      bitmap_len_byte` adds 8-byte units, so eight times the room is set aside. */
  function LayoutOf(eoc: Word, n: nat): Layout
    requires eoc < CORE_BASE + 0x4000_0000_0000 && n < TWO32
  {
    var bitmap := Align1K(eoc);
    var blocks := Align1K(bitmap + 8 * MemBitSize(n));
    Layout(eoc, bitmap, MemBitSize(n), blocks, Align8(n * SIZEOF_MEMBLK), blocks + Align8(n * SIZEOF_MEMBLK))
  }

  lemma LayoutAscends(eoc: Word, n: nat)
    requires CORE_BASE <= eoc < CORE_BASE + 0x4000_0000_0000 && n < TWO32
    ensures Ascending(LayoutOf(eoc, n), n) && LayoutOf(eoc, n).heap <= TWO64 - 2 * PAGE
  {
  }

  /** The addresses, each the first 1 KiB boundary behind what comes before it: the bitmap behind the
      core image, the blocks behind eight times the bitmap, and the heap right behind 32 bytes a
      block. */
  predicate IsLayout(at: Layout, eoc: Word, n: nat) {
    && at.eoc == eoc && at.bitmapBytes == 8 * ((n + 63) / 64) && at.blocksBytes == 32 * n
    && at.bitmap % 1024 == 0 && eoc <= at.bitmap < eoc + 1024
    && at.blocks % 1024 == 0 && 0 <= at.blocks - (at.bitmap + 8 * at.bitmapBytes) < 1024
    && at.heap == at.blocks + 32 * n
  }

  lemma SameBoundary(a: nat, x: nat, y: nat)
    requires a <= x < a + 1024 && a <= y < a + 1024 && x % 1024 == 0 && y % 1024 == 0
    ensures x == y
  {
  }

  lemma LayoutUnique(a: Layout, b: Layout, eoc: Word, n: nat)
    requires IsLayout(a, eoc, n) && IsLayout(b, eoc, n)
    ensures a == b
  {
    SameBoundary(eoc, a.bitmap, b.bitmap);
    SameBoundary(a.bitmap + 8 * a.bitmapBytes, a.blocks, b.blocks);
  }

  lemma WholeRecords(n: nat)
    ensures Align8(n * SIZEOF_MEMBLK) == 32 * n
  {
    assert n * SIZEOF_MEMBLK == 8 * (4 * n);
    DivUnique(32 * n + 7, 8, 4 * n, 7);
  }

  lemma LayoutIs(eoc: Word, n: nat)
    requires eoc < CORE_BASE + 0x4000_0000_0000 && n < TWO32
    ensures IsLayout(LayoutOf(eoc, n), eoc, n)
  {
    WholeRecords(n);
  }

  /** These are the addresses of the layout, and no others. */
  lemma LayoutExact(at: Layout, eoc: Word, n: nat)
    requires eoc < CORE_BASE + 0x4000_0000_0000 && n < TWO32
    ensures at == LayoutOf(eoc, n) <==> IsLayout(at, eoc, n)
  {
    LayoutIs(eoc, n);
    if IsLayout(at, eoc, n) { LayoutUnique(at, LayoutOf(eoc, n), eoc, n); }
  }

  method PlaceTables(eoc: Word, n: nat) returns (at: Layout)
    requires CORE_BASE <= eoc < CORE_BASE + 0x4000_0000_0000 && n < TWO32
    ensures at == LayoutOf(eoc, n) && Ascending(at, n) && at.heap <= TWO64 - 2 * PAGE
  {
    LayoutAscends(eoc, n);
    ghost var all := LayoutOf(eoc, n);
    var bitmap := Align1K(eoc);
    assert bitmap == all.bitmap;
    var lenByte := MemBitSize(n);
    var heap := Align1K(bitmap + 8 * lenByte);
    var blocks := heap;
    assert blocks == all.blocks;
    var blkstructsize := Align8(n * SIZEOF_MEMBLK);
    heap := heap + blkstructsize;
    assert heap == all.heap;
    at := Layout(eoc, bitmap, lenByte, blocks, blkstructsize, heap);
  }

  /** The state in which blocks can first be handed out: the blocks of the table, used exactly
      when they lie below the page above the heap; all other bits of the bitmap are clear, and
      nothing has been handed out. */
  ghost predicate IsBoot(k: Kernel, table: seq<Entry>, eoc: Word) {
    var addresses := BlocksOf(Kept(table));
    && k.count == |addresses| < TWO32 && WellSized(k) && CORE_BASE <= eoc < CORE_BASE + 0x4000_0000_0000
    && k.heap == LayoutOf(eoc, k.count).heap && k.granted == [] && k.chunks == []
    && forall i :: 0 <= i < 64 * |k.bitmap| ==>
         Used(k.bitmap, i) == (i < k.count && Linear(addresses[i]) < PageAlign(k.heap))
  }

  /** It is safe, and the bits behind the last block are clear. */
  lemma BootSafe(k: Kernel, table: seq<Entry>, eoc: Word)
    requires IsBoot(k, table, eoc)
    ensures Safe(k, k, PageAlign(k.heap)) && SlackClear(k)
  {
    LayoutAscends(eoc, k.count);
    assert forall i :: !Covered(k.granted, i);
  }

  method StartKernel(eoc: Word, src: MemConfig) returns (g: Gmd, at: Layout)
    requires CORE_BASE <= eoc < CORE_BASE + 0x4000_0000_0000
    requires src.counts <= src.blocks.Length && RamSized(src.blocks[..src.counts])
    requires src.ramcounts == |BlocksOf(src.blocks[..src.counts])| < TWO32
    ensures g.Valid() && fresh(g) && g.Length() == src.ramcounts
    ensures at == LayoutOf(eoc, src.ramcounts) && Ascending(at, g.Length()) && at.heap <= TWO64 - 2 * PAGE
    ensures g.State() == Kernel(g.State().bitmap, g.Length(), at.heap, [], [])
    ensures Expanded(g, BlocksOf(src.blocks[..src.counts]), g.Length())
    ensures forall i :: 0 <= i < g.Length()
             ==> (!Used(g.State().bitmap, i) <==> PageAlign(at.heap) <= g.blocks[i].address)
    ensures forall i :: g.Length() <= i < 64 * |g.State().bitmap| ==> !Used(g.State().bitmap, i)
    ensures g.Length() > 0 ==> g.blocksize == 2048
  {
    at := PlaceTables(eoc, src.ramcounts);
    g := new Gmd(src.ramcounts, at.heap);
    forall m | 0 <= m < 64 * |g.State().bitmap|
      ensures !Used(g.State().bitmap, m)
    {
      ZeroBits(m % 64);
    }
    MemblkInit(g, src);
  }

  lemma {:induction false} KeptRamSized(table: seq<Entry>)
    ensures RamSized(Kept(table))
  {
    if table != [] && ValidType(table[0]) {
      KeptRamSized(table[1..]);
      var first, rest := Classify(table[0]), Kept(table[1..]);
      assert forall n :: 0 <= n < |first + rest|
              ==> (first + rest)[n] == if n < |first| then first[n] else rest[n - |first|];
    }
  }

  /** Every page that the table offers has its block. */
  ghost predicate PagesHaveBlocks(g: Gmd, table: seq<Entry>)
    reads g, g.blocks
  {
    forall i: nat, k: nat :: HasBlock(table, i, k) ==>
      exists b :: 0 <= b < g.blocks.Length && g.blocks[b] == Memblk(null, 0, Linear(BlockOf(table[i], k)), 1)
  }

  lemma BlocksFound(g: Gmd, table: seq<Entry>)
    requires g.blocks.Length == |BlocksOf(Kept(table))|
    requires forall i :: 0 <= i < g.blocks.Length
              ==> g.blocks[i] == Memblk(null, 0, Linear(BlocksOf(Kept(table))[i]), 1)
    ensures PagesHaveBlocks(g, table)
  {
    forall i: nat, k: nat | HasBlock(table, i, k)
      ensures exists b :: 0 <= b < g.blocks.Length
               && g.blocks[b] == Memblk(null, 0, Linear(BlockOf(table[i], k)), 1)
    {
      BlocksAre(table, BlockOf(table[i], k));
      var b :| 0 <= b < g.blocks.Length && BlocksOf(Kept(table))[b] == BlockOf(table[i], k);
      assert g.blocks[b] == Memblk(null, 0, Linear(BlockOf(table[i], k)), 1);
    }
  }

  /** `init2` and `Start_Kernel`: from the firmware's table to the first state in which
      blocks can be handed out. */
  method BootFromTable(table: seq<Entry>, eoc: Word) returns (g: Gmd, at: Layout)
    requires |table| == 32 && |BlocksOf(Kept(table))| < TWO32
    requires CORE_BASE <= eoc < CORE_BASE + 0x4000_0000_0000
    ensures at == LayoutOf(eoc, |BlocksOf(Kept(table))|) && Ascending(at, g.Length())
    ensures g.Valid() && fresh(g) && IsBoot(g.State(), table, eoc)
    ensures forall i :: 0 <= i < g.Length() ==> g.blocks[i] == Memblk(null, 0, Linear(BlocksOf(Kept(table))[i]), 1)
    ensures PagesHaveBlocks(g, table) && (g.Length() > 0 ==> g.blocksize == 2048)
    ensures Safe(g.State(), g.State(), PageAlign(at.heap)) && SlackClear(g.State())
  {
    var conf := new MemConfig();
    conf.InitMemory(table);
    CountsAgree(table);
    KeptRamSized(table);
    g, at := StartKernel(eoc, conf);
    BlocksFound(g, table);
    BootSafe(g.State(), table, eoc);
  }

  // ---------------------------------------------------------------- memory handed out

  /** The linear memory of the block at physical address `a`. */
  function BlockMemory(a: nat): Range { Range(Linear(a), PAGE) }

  /** Memory handed out as blocks is disjoint from memory handed out from the heap, and
      blocks of different grants share no memory. */
  ghost predicate MemoryApart(k: Kernel, addresses: seq<nat>) {
    && (forall g, i: nat, c ::
          0 <= g < |k.granted| && k.granted[g].Contains(i) && i < |addresses| && 0 <= c < |k.chunks|
          ==> Disjoint(BlockMemory(addresses[i]), k.chunks[c]))
    && (forall g, h, i: nat, j: nat ::
          (0 <= g < h < |k.granted| && k.granted[g].Contains(i) && k.granted[h].Contains(j)
           && i < |addresses| && j < |addresses|)
          ==> Disjoint(BlockMemory(addresses[i]), BlockMemory(addresses[j])))
  }

  lemma LinearIs(a: nat)
    requires a + PAGE <= TWO64 - CORE_BASE
    ensures Linear(a) == a + CORE_BASE
  {
    NoWrap64(a + CORE_BASE);
  }

  lemma SafeApart(k: Kernel, boot: Kernel, addresses: seq<nat>, ceiling: nat)
    requires Safe(k, boot, ceiling) && |addresses| == k.count && Apart(addresses)
    requires forall i :: 0 <= i < k.count ==> Used(boot.bitmap, i) == (Linear(addresses[i]) < ceiling)
    requires forall i :: 0 <= i < k.count ==> addresses[i] + PAGE <= TWO64 - CORE_BASE
    ensures MemoryApart(k, addresses)
  {
    forall g, h, i: nat, j: nat | 0 <= g < h < |k.granted| && k.granted[g].Contains(i) && k.granted[h].Contains(j)
        && i < |addresses| && j < |addresses|
      ensures Disjoint(BlockMemory(addresses[i]), BlockMemory(addresses[j]))
    {
      assert i != j;
      LinearIs(addresses[i]);
      LinearIs(addresses[j]);
      var lo, hi := if i < j then i else j, if i < j then j else i;
      assert addresses[lo] + PAGE <= addresses[hi] || addresses[hi] + PAGE <= addresses[lo];
    }
  }

  /** From a firmware map with disjoint RAM ranges below 2^47, through the boot state, to the end
      of any run whose calls are guarded, on every machine. */
  lemma RunKeepsMemoryApart(table: seq<Entry>, eoc: Word, k: Kernel, ops: seq<Op>)
    requires SaneTable(table) && IsBoot(k, table, eoc)
    requires forall e :: 0 <= e < |table| && table[e].typ == RAM
              ==> table[e].base + table[e].length <= TWO64 - CORE_BASE
    requires GuardedRun(k, ops, PageAlign(k.heap))
    ensures var r := Run(k, ops);
            Safe(r, k, PageAlign(k.heap)) && SlackClear(r) && MemoryApart(r, BlocksOf(Kept(table)))
  {
    var addresses := BlocksOf(Kept(table));
    BlocksOfTable(table);
    forall i | 0 <= i < k.count
      ensures addresses[i] + PAGE <= TWO64 - CORE_BASE
    {
      assert InsideRam(table, addresses[i]);
    }
    BootSafe(k, table, eoc);
    RunSafe(k, ops, k, PageAlign(k.heap));
    SlackStays(k, ops, PageAlign(k.heap));
    SafeApart(Run(k, ops), k, addresses, PageAlign(k.heap));
  }

  // ---------------------------------------------------------------- the heap and the blocks

  /** The new heap memory ends below every block handed out. */
  predicate BelowBlocks(k: Kernel, addresses: seq<nat>, end: nat) {
    forall g, i :: 0 <= g < |k.granted| && 0 <= i < |addresses| && k.granted[g].Contains(i)
        ==> end <= Linear(addresses[i])
  }

  /** As long as the heap top is not above a block handed out, `simple_malloc` keeps memory apart
      if and only if it ends below the blocks handed out. */
  lemma HeapApart(k: Kernel, addresses: seq<nat>, bytes: nat)
    requires MemoryApart(k, addresses) && BelowBlocks(k, addresses, k.heap) && bytes > 0
    ensures MemoryApart(MallocStep(k, bytes), addresses) <==> BelowBlocks(k, addresses, k.heap + bytes)
  {
    var k' := MallocStep(k, bytes);
    var c := |k.chunks|;
    assert k'.chunks[c] == Range(k.heap, bytes) && forall d :: 0 <= d < c ==> k'.chunks[d] == k.chunks[d];
    if MemoryApart(k', addresses) {
      forall g, i | 0 <= g < |k.granted| && 0 <= i < |addresses| && k.granted[g].Contains(i)
        ensures k.heap + bytes <= Linear(addresses[i])
      {
        assert Disjoint(BlockMemory(addresses[i]), k'.chunks[c]);
        assert BlockMemory(addresses[i]).Contains(Linear(addresses[i]));
      }
    }
  }
}
