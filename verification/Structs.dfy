/** The C structures that take memory (core/memblk.h:81-134, core/list.h:6-11), laid out by their
    fields: each at the next multiple of its alignment, the whole a multiple of the largest. */
module Structs {
  import opened Bits
  import opened Boot
  import opened BootRuns
  import opened MemoryMap
  import opened Runs
  import opened Scan

  datatype Field = Field(size: nat, align: nat)

  const UINT8 := Field(1, 1)
  const UINT32 := Field(4, 4)
  const INT32 := Field(4, 4)
  const UINT64 := Field(8, 8)

  /** A pointer of x86-64. */
  const ADDRESS := Field(8, 8)

  /** `attributes`, `parent`, `offset`, `endoffset`, `len` */
  const MEMFRAGMENT := [UINT8, ADDRESS, UINT32, UINT32, UINT64]

  /** `fragments`, `fragcount`, `address`, `type` */
  const MEMBLK := [ADDRESS, INT32, ADDRESS, UINT32]

  /** `data`, `prev`, `next` */
  function ListNode(data: Field): seq<Field> { [data, ADDRESS, ADDRESS] }

  /** Where the field before field `i` ends. */
  function EndBefore(fields: seq<Field>, offsets: seq<nat>, i: nat): nat
    requires |offsets| == |fields| && i <= |fields|
  {
    if i == 0 then 0 else offsets[i - 1] + fields[i - 1].size
  }

  predicate Next(at: nat, align: nat, end: nat) {
    align > 0 && at % align == 0 && end <= at < end + align
  }

  predicate IsStruct(fields: seq<Field>, offsets: seq<nat>, whole: Field) {
    && |offsets| == |fields|
    && (forall i :: 0 <= i < |fields| ==> Next(offsets[i], fields[i].align, EndBefore(fields, offsets, i)))
    && (exists i :: 0 <= i < |fields| && fields[i].align == whole.align)
    && (forall i :: 0 <= i < |fields| ==> fields[i].align <= whole.align)
    && Next(whole.size, whole.align, EndBefore(fields, offsets, |fields|))
  }

  lemma StructSteps(fields: seq<Field>, offsets: seq<nat>, whole: Field)
    requires IsStruct(fields, offsets, whole) && 3 <= |fields|
    ensures Next(offsets[0], fields[0].align, 0)
    ensures Next(offsets[1], fields[1].align, offsets[0] + fields[0].size)
    ensures Next(offsets[2], fields[2].align, offsets[1] + fields[1].size)
    ensures |fields| > 3 ==> Next(offsets[3], fields[3].align, offsets[2] + fields[2].size)
    ensures |fields| > 4 ==> Next(offsets[4], fields[4].align, offsets[3] + fields[3].size)
  {
  }

  lemma AlignmentIs(fields: seq<Field>, offsets: seq<nat>, whole: Field)
    requires IsStruct(fields, offsets, whole) && |fields| > 1 && fields[1].align == 8
    requires forall i :: 0 <= i < |fields| ==> fields[i].align <= 8
    ensures whole.align == 8
  {
    var i :| 0 <= i < |fields| && fields[i].align == whole.align;
    assert fields[1].align <= whole.align;
  }

  lemma FragmentNumbers(o0: nat, o1: nat, o2: nat, o3: nat, o4: nat, size: nat)
    requires Next(o0, 1, 0) && Next(o1, 8, o0 + 1) && Next(o2, 4, o1 + 8) && Next(o3, 4, o2 + 4)
    requires Next(o4, 8, o3 + 4) && Next(size, 8, o4 + 8)
    ensures o0 == 0 && o1 == 8 && o2 == 16 && o3 == 20 && o4 == 24 && size == 32
  {
  }

  lemma FragmentOffsets(offsets: seq<nat>, whole: Field)
    requires IsStruct(MEMFRAGMENT, offsets, whole)
    ensures offsets == [0, 8, 16, 20, 24] && whole == Field(32, 8)
  {
    StructSteps(MEMFRAGMENT, offsets, whole);
    AlignmentIs(MEMFRAGMENT, offsets, whole);
    FragmentNumbers(offsets[0], offsets[1], offsets[2], offsets[3], offsets[4], whole.size);
  }

  lemma FragmentStruct()
    ensures IsStruct(MEMFRAGMENT, [0, 8, 16, 20, 24], Field(32, 8))
  {
    assert MEMFRAGMENT[1].align == 8;
  }

  /** A memory fragment has one layout and takes 32 bytes. */
  lemma FragmentLayout(offsets: seq<nat>, whole: Field)
    ensures IsStruct(MEMFRAGMENT, offsets, whole)
       <==> offsets == [0, 8, 16, 20, 24] && whole == Field(32, 8)
    ensures SIZEOF_MEMFRAGMENT == 32
  {
    if IsStruct(MEMFRAGMENT, offsets, whole) { FragmentOffsets(offsets, whole); }
    FragmentStruct();
  }

  /** A list node holds a fragment and two pointers, in 48 bytes. */
  lemma NodeLayout(offsets: seq<nat>, whole: Field)
    ensures IsStruct(ListNode(Field(32, 8)), offsets, whole)
       <==> offsets == [0, 32, 40] && whole == Field(48, 8)
    ensures SIZEOF_LIST_NODE == 48
  {
    if IsStruct(ListNode(Field(32, 8)), offsets, whole) {
      StructSteps(ListNode(Field(32, 8)), offsets, whole);
      AlignmentIs(ListNode(Field(32, 8)), offsets, whole);
    }
  }

  /** A block record takes 32 bytes. */
  lemma MemblkLayout(offsets: seq<nat>, whole: Field)
    ensures IsStruct(MEMBLK, offsets, whole)
       <==> offsets == [0, 8, 16, 24] && whole == Field(32, 8)
    ensures SIZEOF_MEMBLK == 32
  {
    if IsStruct(MEMBLK, offsets, whole) {
      StructSteps(MEMBLK, offsets, whole);
      assert MEMBLK[0].align == 8;
    }
  }

  // ---------------------------------------------------------------- in the heap

  /** The memory of field `i` of a structure at `base`. */
  function FieldMemory(base: nat, fields: seq<Field>, offsets: seq<nat>, i: nat): Range
    requires |offsets| == |fields| && i < |fields|
  {
    Range(base + offsets[i], fields[i].size)
  }

  ghost predicate Within(inner: Range, outer: Range) {
    forall i: nat :: inner.Contains(i) ==> outer.Contains(i)
  }

  /** Every field lies at its alignment inside the memory of the structure, and no two overlap. */
  ghost predicate HoldsFields(memory: Range, fields: seq<Field>, offsets: seq<nat>)
    requires |offsets| == |fields|
  {
    && (forall i :: 0 <= i < |fields| ==>
          Within(FieldMemory(memory.start, fields, offsets, i), memory)
          && fields[i].align > 0 && (memory.start + offsets[i]) % fields[i].align == 0)
    && (forall i, j :: 0 <= i < j < |fields| ==>
          Disjoint(FieldMemory(memory.start, fields, offsets, i), FieldMemory(memory.start, fields, offsets, j)))
  }

  lemma FieldStep(fields: seq<Field>, offsets: seq<nat>, whole: Field, j: nat)
    requires IsStruct(fields, offsets, whole) && j < |fields|
    ensures EndBefore(fields, offsets, j) <= offsets[j] && offsets[j] % fields[j].align == 0 < fields[j].align
    ensures EndBefore(fields, offsets, j + 1) == offsets[j] + fields[j].size
  {
    assert Next(offsets[j], fields[j].align, EndBefore(fields, offsets, j));
  }

  // Fields ascend.
  lemma {:induction false} FieldsAscend(fields: seq<Field>, offsets: seq<nat>, whole: Field, i: nat, j: nat)
    requires IsStruct(fields, offsets, whole) && i <= j <= |fields|
    ensures EndBefore(fields, offsets, i) <= EndBefore(fields, offsets, j)
    decreases j
  {
    if i < j {
      FieldsAscend(fields, offsets, whole, i, j - 1);
      FieldStep(fields, offsets, whole, j - 1);
    }
  }

  predicate Basic(align: nat) { align == 1 || align == 2 || align == 4 || align == 8 }

  lemma MultipleSum(a: nat, b: nat, align: nat, m: nat, n: nat)
    requires align > 0 && a == align * m && b == align * n
    ensures (a + b) % align == 0
  {
    assert align * (m + n) == align * m + align * n;
    DivUnique(a + b, align, m + n, 0);
  }

  lemma SumAligned(a: nat, b: nat, align: nat)
    requires Basic(align) && a % 8 == 0 && b % align == 0
    ensures (a + b) % align == 0
  {
    var q := a / 8;
    var m := if align == 1 then a else if align == 2 then 4 * q else if align == 4 then 2 * q else q;
    assert b == align * (b / align);
    MultipleSum(a, b, align, m, b / align);
  }

  lemma FieldInside(memory: Range, fields: seq<Field>, offsets: seq<nat>, whole: Field, i: nat)
    requires IsStruct(fields, offsets, whole) && memory.len == whole.size && memory.start % 8 == 0
    requires i < |fields| && Basic(fields[i].align)
    ensures Within(FieldMemory(memory.start, fields, offsets, i), memory)
    ensures (memory.start + offsets[i]) % fields[i].align == 0
  {
    FieldStep(fields, offsets, whole, i);
    FieldsAscend(fields, offsets, whole, i + 1, |fields|);
    SumAligned(memory.start, offsets[i], fields[i].align);
  }

  lemma FieldsApart(base: nat, fields: seq<Field>, offsets: seq<nat>, whole: Field, i: nat, j: nat)
    requires IsStruct(fields, offsets, whole) && i < j < |fields|
    ensures Disjoint(FieldMemory(base, fields, offsets, i), FieldMemory(base, fields, offsets, j))
  {
    FieldStep(fields, offsets, whole, i);
    FieldsAscend(fields, offsets, whole, i + 1, j);
    FieldStep(fields, offsets, whole, j);
  }

  /** Memory of the size of a structure, at a multiple of 8, holds its fields. */
  lemma StructHolds(memory: Range, fields: seq<Field>, offsets: seq<nat>, whole: Field)
    requires IsStruct(fields, offsets, whole) && memory.len == whole.size && memory.start % 8 == 0
    requires forall i :: 0 <= i < |fields| ==> Basic(fields[i].align)
    ensures HoldsFields(memory, fields, offsets)
  {
    forall i | 0 <= i < |fields|
      ensures Within(FieldMemory(memory.start, fields, offsets, i), memory)
      ensures (memory.start + offsets[i]) % fields[i].align == 0
    {
      FieldInside(memory, fields, offsets, whole, i);
    }
    forall i, j | 0 <= i < j < |fields|
      ensures Disjoint(FieldMemory(memory.start, fields, offsets, i), FieldMemory(memory.start, fields, offsets, j))
    {
      FieldsApart(memory.start, fields, offsets, whole, i, j);
    }
  }

  lemma FragmentHolds(memory: Range, offsets: seq<nat>, data: Field)
    requires IsStruct(MEMFRAGMENT, offsets, data) && memory.start % 8 == 0 && memory.len == 32
    ensures data == Field(32, 8) && HoldsFields(memory, MEMFRAGMENT, offsets)
  {
    FragmentLayout(offsets, data);
    StructHolds(memory, MEMFRAGMENT, offsets, data);
  }

  lemma NodeHolds(memory: Range, data: Field, offsets: seq<nat>, whole: Field)
    requires data == Field(32, 8) && IsStruct(ListNode(data), offsets, whole)
    requires memory.start % 8 == 0 && memory.len == 48
    ensures HoldsFields(memory, ListNode(data), offsets)
  {
    NodeLayout(offsets, whole);
    StructHolds(memory, ListNode(data), offsets, whole);
  }

  /** A grant takes 32 and 48 bytes of the heap, one behind the other, and keeps it aligned. */
  lemma GrantTakes(k: Kernel, start: nat, count: nat, wild: Word)
    requires k.heap + 80 < TWO64
    ensures var k' := GrantStep(k, start, count, wild);
            && k'.chunks == k.chunks + [Range(k.heap, 32)] + [Range(k.heap + 32, 48)]
            && k'.heap == k.heap + 80 && (k.heap % 8 == 0 ==> k'.heap % 8 == 0)
  {
    GrantChunks(k, start, count, wild);
  }

  /** At an aligned heap the first of these two chunks holds all fields of the fragment, the second
      those of the list node, and they are disjoint. */
  lemma ChunksHold(heap: nat, fragment: seq<nat>, node: seq<nat>, data: Field, whole: Field)
    requires IsStruct(MEMFRAGMENT, fragment, data) && IsStruct(ListNode(data), node, whole) && heap % 8 == 0
    ensures HoldsFields(Range(heap, 32), MEMFRAGMENT, fragment)
    ensures HoldsFields(Range(heap + 32, 48), ListNode(data), node)
    ensures Disjoint(Range(heap, 32), Range(heap + 32, 48))
  {
    FragmentHolds(Range(heap, 32), fragment, data);
    NodeHolds(Range(heap + 32, 48), data, node, whole);
  }

  /** The heap starts aligned at boot. */
  lemma BootAligned(k: Kernel, table: seq<Entry>, eoc: Word)
    requires IsBoot(k, table, eoc)
    ensures k.heap % 8 == 0
  {
    HeapAligned(Align1K(Align1K(eoc) + 8 * MemBitSize(k.count)), Align8(k.count * SIZEOF_MEMBLK));
  }

  lemma HeapAligned(blocks: nat, bytes: nat)
    requires blocks % 1024 == 0 && bytes % 8 == 0
    ensures (blocks + bytes) % 8 == 0
  {
    MultipleSum(blocks, bytes, 8, 128 * (blocks / 1024), bytes / 8);
  }

  predicate OnlyGrants(ops: seq<Op>) {
    forall i :: 0 <= i < |ops| ==> ops[i].Alloc?
  }

  /** In a guarded run of block requests alone, every grant moves the heap by 80 bytes. */
  lemma {:induction false} HeapOfGrants(k: Kernel, ops: seq<Op>, ceiling: nat)
    requires GuardedRun(k, ops, ceiling) && OnlyGrants(ops) && ceiling < TWO64
    ensures Run(k, ops).heap == k.heap + 80 * (|Run(k, ops).granted| - |k.granted|)
    decreases |ops|
  {
    if ops != [] {
      var op := ops[0];
      var found := Found(k, op.count, op.machine);
      if found.Some? { GrantChunks(k, found.value, op.count, op.machine.wild); }
      HeapOfGrants(Step(k, op), ops[1..], ceiling);
    }
  }

  /** After the boot of `BootRuns.OneBlock` and one request: the chunks and the heap in numbers. */
  lemma OneBlockGrant(k: Kernel, m: Machine)
    requires IsBoot(k, OneBlock(), EOC) && !EdgeBit(m.shift, 0)
    ensures var k' := Step(k, Alloc(1, m));
            && k'.granted == [Range(0, 1)]
            && k'.heap == 0xFFFF_8000_0013_0470
            && k'.chunks == [Range(0xFFFF_8000_0013_0420, 32), Range(0xFFFF_8000_0013_0440, 48)]
  {
    OneBlockBoot(k);
    NextGrantIs(k, 0, 1, m);
    GrantChunks(k, 0, 1, m.wild);
  }
}
