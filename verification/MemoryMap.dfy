/** From the firmware memory map to 2 MiB pages (core/init/x86_64/BIOS/memory.c, page.h). */
module MemoryMap {
  import opened Bits

  const PAGE: nat := 0x20_0000

  /** Values of 16, 32 and 64 bits. */
  function Wrap16(x: int): nat { x % 0x1_0000 }

  function Wrap32(x: int): nat { x % TWO32 }

  function Wrap64(x: int): Word { x % TWO64 }

  // ---------------------------------------------------------------- page.h

  function PageShl(x: nat): Word { Wrap64(x * PAGE) }

  function PageShr(x: Word): Word { x / PAGE }

  /** Rounds up to a page boundary, in 64 bits. */
  function PageAlign(a: Word): (r: Word)
    ensures r % PAGE == 0
    ensures a <= TWO64 - PAGE ==> a <= r < a + PAGE
    ensures a > TWO64 - PAGE ==> r == 0
  {
    var v := Wrap64(a + PAGE - 1);
    v - v % PAGE
  }

  // ---------------------------------------------------------------- map entries

  /** One address range descriptor, as the firmware writes it. */
  datatype Entry = Entry(base: Word, length: Word, typ: nat)

  /** One record of `memconfig.blocks`. */
  datatype Record = Record(addr: Word, len: Word, size: Word, typ: nat)

  const RAM: nat := 1

  predicate ValidType(e: Entry) {
    !(e.typ > 4 || e.typ <= 0)
  }

  /** The number of pages recorded for a RAM range (core/init/x86_64/BIOS/memory.c:47-54). */
  function PageCount(base: Word, length: Word): Word {
    var end := PageShl(PageShr(Wrap64(base + length)));
    var start := PageAlign(base);
    if end > start then PageShr(end - start) else 0
  }

  lemma PageCountBounds(base: Word, length: Word)
    ensures PageCount(base, length) < 0x800_0000_0000
    ensures var end, start := PageShl(PageShr(Wrap64(base + length))), PageAlign(base);
            PageCount(base, length) > 0 <==> end > start
  {
  }

  lemma StepBackAndForth(c: nat)
    requires c < 0xFFFF
    ensures Wrap16(Wrap16(c - 1) + 1) == c && Wrap16(c + 1) == c + 1
    ensures Wrap32(Wrap32(c - 1) + 1) == c && Wrap32(c + 1) == c + 1
  {
  }

  lemma NoWrap64(x: int)
    requires 0 <= x < TWO64
    ensures Wrap64(x) == x
  {
  }

  /** What one entry leaves in the configuration: nothing for a RAM range without a page. */
  function Classify(e: Entry): (r: seq<Record>)
    ensures |r| <= 1
  {
    if e.typ == RAM then
      if PageCount(e.base, e.length) > 0 then [Record(e.base, PageCount(e.base, e.length), 2048, RAM)] else []
    else
      [Record(e.base, e.length / 1024, 1, e.typ)]
  }

  /** Everything kept from a table: entries up to the first invalid type. */
  function Kept(table: seq<Entry>): seq<Record> {
    if table == [] || !ValidType(table[0]) then []
    else Classify(table[0]) + Kept(table[1..])
  }

  predicate AllValid(table: seq<Entry>) {
    forall i :: 0 <= i < |table| ==> ValidType(table[i])
  }

  lemma {:induction false} KeptSnoc(table: seq<Entry>, e: Entry)
    requires AllValid(table) && ValidType(e)
    ensures Kept(table + [e]) == Kept(table) + Classify(e)
  {
    if table == [] {
      assert Kept([e][1..]) == [];
    } else {
      KeptSnoc(table[1..], e);
      assert (table + [e])[1..] == table[1..] + [e];
    }
  }

  lemma {:induction false} KeptStops(table: seq<Entry>, n: nat)
    requires n < |table| && AllValid(table[..n]) && !ValidType(table[n])
    ensures Kept(table) == Kept(table[..n])
  {
    if n != 0 {
      assert table[..n][0] == table[0] && table[..n][1..] == table[1..][..n - 1];
      KeptStops(table[1..], n - 1);
    }
  }

  /** The sum of the RAM page counts. */
  function RamPages(records: seq<Record>): nat {
    if records == [] then 0
    else
      var last := records[|records| - 1];
      RamPages(records[..|records| - 1]) + (if last.typ == RAM then last.len else 0)
  }

  lemma RamPagesSnoc(records: seq<Record>, more: seq<Record>)
    requires |more| <= 1
    ensures RamPages(records + more) == RamPages(records) + (if |more| == 1
            && more[0].typ == RAM then more[0].len else 0)
  {
    if |more| == 1 {
      assert (records + more)[..|records|] == records;
    } else {
      assert records + more == records;
    }
  }

  /** The records and the page total after `i` entries, all of a valid type. */
  ghost predicate KeptSoFar(table: seq<Entry>, i: nat, records: seq<Record>, total: nat) {
    && i <= |table| && AllValid(table[..i]) && records == Kept(table[..i])
    && total == RamPages(records) <= i * 0x800_0000_0000
  }

  lemma KeptNext(table: seq<Entry>, i: nat, records: seq<Record>, total: nat)
    requires KeptSoFar(table, i, records, total) && i < |table| && ValidType(table[i])
    ensures var pages := if table[i].typ == RAM then PageCount(table[i].base, table[i].length) else 0;
            KeptSoFar(table, i + 1, records + Classify(table[i]), total + pages)
  {
    assert table[..i + 1] == table[..i] + [table[i]];
    KeptSnoc(table[..i], table[i]);
    RamPagesSnoc(records, Classify(table[i]));
    PageCountBounds(table[i].base, table[i].length);
  }

  lemma KeptEnds(table: seq<Entry>, i: nat, records: seq<Record>, total: nat)
    requires KeptSoFar(table, i, records, total) && (i == |table| || !ValidType(table[i]))
    ensures records == Kept(table) && total == RamPages(Kept(table))
  {
    if i < |table| { KeptStops(table, i); } else { assert table[..i] == table; }
  }

  // ---------------------------------------------------------------- what is kept, and nothing else

  /** The entry and all before it have a type from 1 to 4. */
  predicate Reached(table: seq<Entry>, i: nat) {
    i < |table| && forall j :: 0 <= j <= i ==> 1 <= table[j].typ <= 4
  }

  /** An entry that leaves a record: RAM only with a page in it. */
  predicate Recorded(e: Entry) {
    e.typ == 1 ==> PageCount(e.base, e.length) > 0
  }

  /** RAM is recorded in 2048 KiB pages, anything else in KiB. */
  predicate IsRecord(r: Record, e: Entry) {
    && r.addr == e.base && r.typ == e.typ
    && (e.typ == 1 ==> r.len == PageCount(e.base, e.length) && r.size == 2048)
    && (e.typ != 1 ==> r.len == e.length / 1024 && r.size == 1)
  }

  predicate Rising(from: seq<nat>) {
    forall n, m :: 0 <= n < m < |from| ==> from[n] < from[m]
  }

  /** Record `n` is that of entry `from[n]`; the entries are in order, reached, and all of
      those that leave a record. */
  ghost predicate RecordsAre(table: seq<Entry>, records: seq<Record>, from: seq<nat>) {
    && |from| == |records| && Rising(from)
    && (forall n :: 0 <= n < |from| ==>
          Reached(table, from[n]) && Recorded(table[from[n]]) && IsRecord(records[n], table[from[n]]))
    && (forall i :: 0 <= i < |table| && Reached(table, i) && Recorded(table[i]) ==> i in from)
  }

  lemma ReachedLater(table: seq<Entry>, i: nat)
    requires table != [] && 1 <= table[0].typ <= 4
    ensures Reached(table, i + 1) <==> Reached(table[1..], i)
  {
    if Reached(table, i + 1) {
      forall j | 0 <= j <= i
        ensures 1 <= table[1..][j].typ <= 4
      {
        assert table[1..][j] == table[j + 1];
      }
    } else if i + 1 < |table| {
      var j :| 0 <= j <= i + 1 && !(1 <= table[j].typ <= 4);
      assert table[1..][j - 1] == table[j];
    }
  }

  /** The sources of the entries behind the first, counted from the first. */
  function Shifted(rest: seq<nat>): (from: seq<nat>)
    ensures |from| == |rest| && forall n :: 0 <= n < |rest| ==> from[n] == rest[n] + 1
  {
    seq(|rest|, n requires 0 <= n < |rest| => rest[n] + 1)
  }

  lemma ShiftedHolds(rest: seq<nat>, i: nat)
    requires i in rest
    ensures i + 1 in Shifted(rest)
  {
    var n :| 0 <= n < |rest| && rest[n] == i;
    assert Shifted(rest)[n] == i + 1;
  }

  lemma SourceBefore(table: seq<Entry>, front: seq<nat>, records: seq<Record>, rest: seq<nat>, i: nat)
    requires table != [] && 1 <= table[0].typ <= 4 && RecordsAre(table[1..], records, rest)
    requires Reached(table, i) && Recorded(table[i]) && (i == 0 ==> front == [0])
    ensures i in front + Shifted(rest)
  {
    if i > 0 {
      ReachedLater(table, i - 1);
      ShiftedHolds(rest, i - 1);
    }
  }

  lemma RecordBefore(table: seq<Entry>, first: seq<Record>, front: seq<nat>, records: seq<Record>, rest: seq<nat>,
                     n: nat)
    requires table != [] && 1 <= table[0].typ <= 4 && RecordsAre(table[1..], records, rest)
    requires if Recorded(table[0]) then |first| == 1 && IsRecord(first[0], table[0]) && front == [0]
             else first == [] && front == []
    requires n < |front + Shifted(rest)| == |first + records|
    ensures var i := (front + Shifted(rest))[n];
            Reached(table, i) && Recorded(table[i]) && IsRecord((first + records)[n], table[i])
  {
    if n >= |front| { ReachedLater(table, rest[n - |front|]); }
  }

  lemma SourcesRise(front: seq<nat>, rest: seq<nat>)
    requires Rising(rest) && (front == [] || front == [0])
    ensures Rising(front + Shifted(rest))
  {
  }

  // One more entry in front.
  lemma RecordsBefore(table: seq<Entry>, first: seq<Record>, front: seq<nat>, records: seq<Record>, rest: seq<nat>)
    requires table != [] && 1 <= table[0].typ <= 4 && RecordsAre(table[1..], records, rest)
    requires if Recorded(table[0]) then |first| == 1 && IsRecord(first[0], table[0]) && front == [0]
             else first == [] && front == []
    ensures RecordsAre(table, first + records, front + Shifted(rest))
  {
    SourcesRise(front, rest);
    forall n | 0 <= n < |front + Shifted(rest)|
      ensures var i := (front + Shifted(rest))[n];
              Reached(table, i) && Recorded(table[i]) && IsRecord((first + records)[n], table[i])
    {
      RecordBefore(table, first, front, records, rest, n);
    }
    forall i | 0 <= i < |table| && Reached(table, i) && Recorded(table[i])
      ensures i in front + Shifted(rest)
    {
      SourceBefore(table, front, records, rest, i);
    }
  }

  /** What `init_memory` keeps is complete: exactly the entries up to the first type outside 1 to 4,
      in order, but for RAM without a page. */
  lemma {:induction false} KeptRecords(table: seq<Entry>) returns (from: seq<nat>)
    ensures RecordsAre(table, Kept(table), from)
  {
    if table == [] || !(1 <= table[0].typ <= 4) {
      from := [];
    } else {
      var rest := KeptRecords(table[1..]);
      var front := if Recorded(table[0]) then [0] else [];
      RecordsBefore(table, Classify(table[0]), front, Kept(table[1..]), rest);
      from := front + Shifted(rest);
    }
  }

  lemma SomeInBoth(a: seq<nat>, b: seq<nat>)
    requires a != [] && forall i: nat :: i in a ==> i in b
    ensures b != []
  {
    assert a[0] in a;
  }

  lemma {:induction false} SameSources(a: seq<nat>, b: seq<nat>)
    requires Rising(a) && Rising(b) && forall i: nat :: i in a <==> i in b
    ensures a == b
  {
    if a != [] { SomeInBoth(a, b); }
    if b != [] { SomeInBoth(b, a); }
    if a != [] {
      assert a[0] in a && a[0] in b && b[0] in b && b[0] in a;
      assert a[0] == b[0];
      forall i: nat
        ensures i in a[1..] <==> i in b[1..]
      {
        if i in a[1..] || i in b[1..] { InTail(a, i); InTail(b, i); }
      }
      SameSources(a[1..], b[1..]);
    }
  }

  lemma InTail(a: seq<nat>, i: nat)
    requires Rising(a) && a != []
    ensures i in a[1..] <==> i in a && i != a[0]
  {
  }

  /** Only one sequence of records is. */
  lemma RecordsUnique(table: seq<Entry>, a: seq<Record>, b: seq<Record>, from: seq<nat>, other: seq<nat>)
    requires RecordsAre(table, a, from) && RecordsAre(table, b, other)
    ensures a == b
  {
    SameSources(from, other);
    forall n | 0 <= n < |a|
      ensures a[n] == b[n]
    {
      assert IsRecord(a[n], table[from[n]]) && IsRecord(b[n], table[other[n]]);
    }
  }

  // ---------------------------------------------------------------- init_memory

  class MemConfig {
    const blocks: array<Record>
    var counts: nat
    var ramcounts: nat

    /** The records zeroed, as `init2` leaves them (core/init/x86_64/BIOS/init.c:89-95). */
    constructor ()
      ensures fresh(blocks) && blocks.Length == 32
      ensures counts == 0 && ramcounts == 0
    {
      blocks := new Record[32](_ => Record(0, 0, 0, 0));
      counts, ramcounts := 0, 0;
    }

    /** One iteration of the loop (core/init/x86_64/BIOS/memory.c:36-88).  `counts` is a
        32-bit and `count` a 16-bit counter; both are stepped back for an ignored RAM entry
        and forward at the end. */
    method RecordEntry(p: Entry, count: nat, total: Word) returns (count': nat, total': Word)
      requires ValidType(p) && count < 32 == blocks.Length && counts == count
      requires total < 32 * 0x800_0000_0000
      modifies this`counts, blocks
      ensures counts == count' == count + |Classify(p)|
      ensures blocks[..count'] == old(blocks[..count]) + Classify(p)
      ensures total' == total + (if p.typ == RAM then PageCount(p.base, p.length) else 0)
    {
      StepBackAndForth(count);
      count', total' := count, total;
      blocks[count] := blocks[count].(addr := p.base, typ := p.typ);
      if p.typ == 1 {
        count', total' := RecordRam(p, count, total);
      } else {
        blocks[count] := blocks[count].(len := p.length / 1024, size := 1);
      }
      count' := Wrap16(count' + 1);
      counts := Wrap32(counts + 1);
      assert blocks[..count] == old(blocks[..count]);
      if count' == count + 1 { assert blocks[..count'] == blocks[..count] + [blocks[count]]; }
    }

    /** The RAM case of the switch (core/init/x86_64/BIOS/memory.c:40-61). */
    method RecordRam(p: Entry, count: nat, total: Word) returns (count': nat, total': Word)
      requires count < 32 == blocks.Length && counts == count
      requires blocks[count].addr == p.base && total < 32 * 0x800_0000_0000
      modifies this`counts, blocks
      ensures var pages := PageCount(p.base, p.length);
              && total' == total + pages
              && (pages > 0 ==> count' == counts == count)
              && (pages == 0 ==> count' == Wrap16(count - 1) && counts == Wrap32(count - 1))
              && (pages > 0 ==> blocks[count] == Record(p.base, pages, 2048, old(blocks[count]).typ))
      ensures forall i :: 0 <= i < 32 && i != count ==> blocks[i] == old(blocks[i])
    {
      PageCountBounds(p.base, p.length);
      NoWrap64(total + PageCount(p.base, p.length));
      count', total' := count, total;
      blocks[count] := blocks[count].(size := 2048);
      var end := PageShl(PageShr(Wrap64(blocks[count].addr + p.length)));
      var start := PageAlign(blocks[count].addr);
      if end > start {
        blocks[count] := blocks[count].(len := PageShr(end - start));
        total' := Wrap64(total + PageShr(end - start));
      } else {
        count' := Wrap16(count' - 1);
        counts := Wrap32(counts - 1);
      }
    }

    method InitMemory(table: seq<Entry>)
      requires |table| == 32 && blocks.Length == 32
      modifies this, blocks
      ensures counts == |Kept(table)| <= 32
      ensures blocks[..counts] == Kept(table)
      ensures exists from :: RecordsAre(table, blocks[..counts], from)
      ensures ramcounts == RamPages(Kept(table)) % TWO32
    {
      var total: Word := 0;
      counts := 0;
      var count := 0;
      var i := 0;
      while i < 32
        invariant 0 <= count <= i <= 32 && counts == count
        invariant KeptSoFar(table, i, blocks[..count], total)
      {
        var p := table[i];
        if p.typ > 4 || p.typ <= 0 {
          break;
        }
        KeptNext(table, i, blocks[..count], total);
        count, total := RecordEntry(p, count, total);
        i := i + 1;
      }
      KeptEnds(table, i, blocks[..count], total);
      ghost var from := KeptRecords(table);
      ramcounts := total % TWO32;
    }
  }

  // ---------------------------------------------------------------- what a page count means

  /** Page number `p` names an aligned page that lies wholly inside `[b, b + l)`. */
  predicate PageInside(p: nat, b: nat, l: nat) {
    b <= p * PAGE && (p + 1) * PAGE <= b + l
  }

  function WholePages(b: nat, l: nat): set<nat> {
    set p: nat | p <= (b + l) / PAGE && PageInside(p, b, l)
  }

  predicate Between(p: nat, lo: nat, hi: nat) {
    lo <= p < hi
  }

  lemma {:induction false} RangeSize(lo: nat, hi: nat)
    ensures |set p: nat | p <= hi && Between(p, lo, hi)| == if lo <= hi then hi - lo else 0
  {
    var r := set p: nat | p <= hi && Between(p, lo, hi);
    if lo < hi {
      var m := hi - 1;
      RangeSize(lo, m);
      assert r == (set p: nat | p <= m && Between(p, lo, m)) + {m};
    } else {
      assert r == {};
    }
  }

  lemma WholePagesSize(b: nat, l: nat)
    ensures var lo, hi := (b + PAGE - 1) / PAGE, (b + l) / PAGE;
            |WholePages(b, l)| == if lo <= hi then hi - lo else 0
  {
    var lo, hi := (b + PAGE - 1) / PAGE, (b + l) / PAGE;
    assert WholePages(b, l) == set p: nat | p <= hi && Between(p, lo, hi);
    RangeSize(lo, hi);
  }

  /** The count in page numbers, whatever leaves 64 bits. */
  lemma PageCountIs(base: Word, length: Word)
    ensures var lo := if base > TWO64 - PAGE then 0 else (base + PAGE - 1) / PAGE;
            var hi := (base + length) / PAGE - (if base + length >= TWO64 then 0x800_0000_0000 else 0);
            PageCount(base, length) == if lo <= hi then hi - lo else 0
  {
    var sum := Wrap64(base + length);
    assert sum == if base + length >= TWO64 then base + length - TWO64 else base + length;
    assert PageShl(PageShr(sum)) == sum / PAGE * PAGE;
    StartPage(base);
  }

  lemma StartPage(base: Word)
    ensures PageAlign(base) == (if base > TWO64 - PAGE then 0 else (base + PAGE - 1) / PAGE) * PAGE
  {
    var v := Wrap64(base + PAGE - 1);
    assert v == if base > TWO64 - PAGE then base + PAGE - 1 - TWO64 else base + PAGE - 1;
    assert v - v % PAGE == v / PAGE * PAGE;
  }

  /** The count is right exactly when the end and the rounded-up start of the range both
      fit in 64 bits or both do not. */
  lemma PageCountExact(base: Word, length: Word)
    ensures PageCount(base, length) == |WholePages(base, length)|
       <==> ((base > TWO64 - PAGE) <==> (base + length >= TWO64))
  {
    WholePagesSize(base, length);
    PageCountIs(base, length);
  }

  /** The blocks are laid out from the raw base, yet they stay inside the range, unless the
      rounded-up start leaves 64 bits and the end does not. */
  lemma BlocksInside(base: Word, length: Word)
    ensures PageCount(base, length) * PAGE <= length
       <==> !(base > TWO64 - PAGE && base + length < TWO64)
  {
  }

  // ---------------------------------------------------------------- the blocks of a configuration

  /** The physical addresses that `memblk_init` walks through for one record; the length is
      read into 32 bits (core/init/x86_64/BIOS/memory.h:61-67). */
  function RecordBlocks(n: Record): seq<nat> {
    if n.typ == RAM then seq(n.len % TWO32, k => n.addr + 1024 * n.size * k) else []
  }

  function BlocksOf(records: seq<Record>): seq<nat> {
    if records == [] then []
    else BlocksOf(records[..|records| - 1]) + RecordBlocks(records[|records| - 1])
  }

  lemma {:induction false} BlocksModulo(records: seq<Record>)
    ensures |BlocksOf(records)| % TWO32 == RamPages(records) % TWO32
  {
    if records != [] {
      var last := |records| - 1;
      BlocksModulo(records[..last]);
      if records[last].typ == RAM {
        ModuloSum(|BlocksOf(records[..last])|, RamPages(records[..last]), records[last].len);
      }
    }
  }

  lemma ModuloSum(x: nat, y: nat, z: nat)
    requires x % TWO32 == y % TWO32
    ensures (x + z % TWO32) % TWO32 == (y + z) % TWO32
  {
  }

  /** `ramcounts` is the number of blocks that `memblk_init` writes, if and only if that
      number fits in 32 bits. */
  lemma CountsAgree(table: seq<Entry>)
    ensures var records := Kept(table);
            RamPages(records) % TWO32 == |BlocksOf(records)| <==> |BlocksOf(records)| < TWO32
  {
    BlocksModulo(Kept(table));
    ModuloIs(|BlocksOf(Kept(table))|, RamPages(Kept(table)));
  }

  lemma ModuloIs(x: nat, y: nat)
    requires x % TWO32 == y % TWO32
    ensures y % TWO32 == x <==> x < TWO32
  {
  }

  /** RAM ranges of the table whose bounds do not leave 64 bits, pairwise disjoint. */
  predicate SaneTable(table: seq<Entry>) {
    && (forall i :: 0 <= i < |table| && table[i].typ == RAM ==> table[i].base + table[i].length <= TWO64 - PAGE)
    && forall i, j :: 0 <= i < j < |table| && table[i].typ == RAM && table[j].typ == RAM ==>
         table[i].base + table[i].length <= table[j].base || table[j].base + table[j].length <= table[i].base
  }

  /** The pages of RAM records: 2 MiB each, pairwise disjoint. */
  ghost predicate DisjointRecords(records: seq<Record>) {
    && (forall i :: 0 <= i < |records| && records[i].typ == RAM ==> records[i].size == 2048)
    && forall i, j :: 0 <= i < j < |records| && records[i].typ == RAM && records[j].typ == RAM ==>
         records[i].addr + records[i].len * PAGE <= records[j].addr
             || records[j].addr + records[j].len * PAGE <= records[i].addr
  }

  // Every RAM record comes from an entry of the table and stays inside it.
  lemma {:induction false} KeptFrom(table: seq<Entry>, i: nat) returns (e: nat)
    requires SaneTable(table) && i < |Kept(table)| && Kept(table)[i].typ == RAM
    ensures e < |table| && table[e].typ == RAM
    ensures Kept(table)[i].size == 2048
    ensures Kept(table)[i].addr == table[e].base
    ensures Kept(table)[i].addr + Kept(table)[i].len * PAGE <= table[e].base + table[e].length
  {
    var first := Classify(table[0]);
    if i < |first| {
      e := 0;
      BlocksInside(table[0].base, table[0].length);
    } else {
      e := KeptFrom(table[1..], i - |first|);
      e := e + 1;
    }
  }

  lemma {:induction false} KeptDisjoint(table: seq<Entry>)
    requires SaneTable(table)
    ensures DisjointRecords(Kept(table))
  {
    if table != [] && ValidType(table[0]) {
      var first, rest := Classify(table[0]), Kept(table[1..]);
      KeptDisjoint(table[1..]);
      BlocksInside(table[0].base, table[0].length);
      forall j | 0 <= j < |rest| && rest[j].typ == RAM && table[0].typ == RAM
        ensures table[0].base + table[0].length <= rest[j].addr || rest[j].addr + rest[j].len * PAGE <= table[0].base
      {
        var e := KeptFrom(table[1..], j);
      }
      assert Kept(table) == first + rest;
      forall i, j | 0 <= i < j < |first + rest| && (first + rest)[i].typ == RAM && (first + rest)[j].typ == RAM
        ensures (first + rest)[i].addr + (first + rest)[i].len * PAGE <= (first + rest)[j].addr
             || (first + rest)[j].addr + (first + rest)[j].len * PAGE <= (first + rest)[i].addr
      {
        if i >= |first| {
          assert (first + rest)[i] == rest[i - |first|] && (first + rest)[j] == rest[j - |first|];
        }
      }
    }
  }

  /** No two 2 MiB blocks overlap. */
  predicate Apart(blocks: seq<nat>) {
    forall i, j :: 0 <= i < j < |blocks| ==> blocks[i] + PAGE <= blocks[j] || blocks[j] + PAGE <= blocks[i]
  }

  lemma {:induction false} BlockFrom(records: seq<Record>, i: nat) returns (n: nat)
    requires DisjointRecords(records) && i < |BlocksOf(records)|
    ensures n < |records| && records[n].typ == RAM
    ensures records[n].addr <= BlocksOf(records)[i]
            && BlocksOf(records)[i] + PAGE <= records[n].addr + records[n].len * PAGE
  {
    var last := |records| - 1;
    var before := BlocksOf(records[..last]);
    if i < |before| {
      n := BlockFrom(records[..last], i);
    } else {
      n := last;
      var k := i - |before|;
      assert BlocksOf(records)[i] == RecordBlocks(records[last])[k] == records[last].addr + PAGE * k;
      assert k + 1 <= records[last].len;
      assert (k + 1) * PAGE <= records[last].len * PAGE;
    }
  }

  lemma BlockWithin(r: Record, k: nat)
    requires r.typ == RAM && r.size == 2048 && k < |RecordBlocks(r)|
    ensures r.addr <= RecordBlocks(r)[k] == r.addr + PAGE * k
    ensures RecordBlocks(r)[k] + PAGE <= r.addr + r.len * PAGE
  {
    assert k + 1 <= r.len % TWO32 <= r.len;
  }

  // A block of the last record and one of the records before it.
  lemma LastApart(records: seq<Record>, i: nat, k: nat)
    requires records != [] && DisjointRecords(records)
    requires i < |BlocksOf(records[..|records| - 1])| && k < |RecordBlocks(records[|records| - 1])|
    ensures var a, b := BlocksOf(records[..|records| - 1])[i], RecordBlocks(records[|records| - 1])[k];
            a + PAGE <= b || b + PAGE <= a
  {
    var last := |records| - 1;
    var m := BlockFrom(records[..last], i);
    BlockWithin(records[last], k);
    assert records[..last][m] == records[m];
  }

  lemma {:induction false} BlocksApart(records: seq<Record>)
    requires DisjointRecords(records)
    ensures Apart(BlocksOf(records))
  {
    if records != [] {
      var last := |records| - 1;
      var before, all := BlocksOf(records[..last]), BlocksOf(records);
      BlocksApart(records[..last]);
      forall i, j | 0 <= i < j < |all|
        ensures all[i] + PAGE <= all[j] || all[j] + PAGE <= all[i]
      {
        if j < |before| {
          assert all[i] == before[i] && all[j] == before[j];
        } else if i < |before| {
          assert all[i] == before[i] && all[j] == RecordBlocks(records[last])[j - |before|];
          LastApart(records, i, j - |before|);
        } else {
          BlockWithin(records[last], i - |before|);
          BlockWithin(records[last], j - |before|);
        }
      }
    }
  }

  /** The block at `a` lies wholly inside a RAM range of the table. */
  ghost predicate InsideRam(table: seq<Entry>, a: nat) {
    exists e :: 0 <= e < |table| && table[e].typ == RAM
      && table[e].base <= a && a + PAGE <= table[e].base + table[e].length
  }

  /** For a table with disjoint RAM ranges, every block lies inside a RAM range of the
      table and no two blocks overlap. */
  lemma BlocksOfTable(table: seq<Entry>)
    requires SaneTable(table)
    ensures Apart(BlocksOf(Kept(table)))
    ensures forall i :: 0 <= i < |BlocksOf(Kept(table))| ==> InsideRam(table, BlocksOf(Kept(table))[i])
  {
    KeptDisjoint(table);
    BlocksApart(Kept(table));
    forall i | 0 <= i < |BlocksOf(Kept(table))|
      ensures InsideRam(table, BlocksOf(Kept(table))[i])
    {
      var n := BlockFrom(Kept(table), i);
      var e := KeptFrom(table, n);
    }
  }
}
