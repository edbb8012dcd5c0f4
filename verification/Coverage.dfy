/** Nothing of the memory that the firmware map offers is lost on the way to blocks
    (core/init/x86_64/BIOS/memory.c:24-92, memory.h:56-77). */
module Coverage {
  import opened Bits
  import opened MemoryMap

  /** The block that starts `k` pages of 2 MiB behind the base of the entry. */
  function BlockOf(e: Entry, k: nat): nat { e.base + 0x20_0000 * k }

  lemma {:induction false} BlockIn(records: seq<Record>, n: nat, k: nat)
    requires n < |records| && k < |RecordBlocks(records[n])|
    ensures RecordBlocks(records[n])[k] in BlocksOf(records)
    decreases |records|
  {
    var last := |records| - 1;
    if n < last { BlockIn(records[..last], n, k); }
  }

  lemma {:induction false} BlockComesFrom(records: seq<Record>, a: nat) returns (n: nat, k: nat)
    requires a in BlocksOf(records)
    ensures n < |records| && k < |RecordBlocks(records[n])| && a == RecordBlocks(records[n])[k]
    decreases |records|
  {
    var last := |records| - 1;
    if a in BlocksOf(records[..last]) {
      n, k := BlockComesFrom(records[..last], a);
    } else {
      n := last;
      k :| 0 <= k < |RecordBlocks(records[n])| && a == RecordBlocks(records[n])[k];
    }
  }

  /** Page `k` of the entry is given a block. */
  predicate HasBlock(table: seq<Entry>, i: nat, k: nat) {
    Reached(table, i) && table[i].typ == 1 && k < PageCount(table[i].base, table[i].length) % 0x1_0000_0000
  }

  lemma EntryBlock(table: seq<Entry>, from: seq<nat>, i: nat, k: nat)
    requires RecordsAre(table, Kept(table), from) && HasBlock(table, i, k)
    ensures BlockOf(table[i], k) in BlocksOf(Kept(table))
  {
    assert Recorded(table[i]);
    var n :| 0 <= n < |from| && from[n] == i;
    BlockIn(Kept(table), n, k);
    assert RecordBlocks(Kept(table)[n])[k] == BlockOf(table[i], k);
  }

  lemma BlockEntry(table: seq<Entry>, from: seq<nat>, a: nat) returns (i: nat, k: nat)
    requires RecordsAre(table, Kept(table), from) && a in BlocksOf(Kept(table))
    ensures HasBlock(table, i, k) && a == BlockOf(table[i], k)
  {
    var n;
    n, k := BlockComesFrom(Kept(table), a);
    i := from[n];
    assert IsRecord(Kept(table)[n], table[i]);
  }

  /** The blocks are exactly the pages counted, modulo 2^32, in the RAM entries up to the first type
      outside 1 to 4, laid out from the base of each. */
  lemma BlocksAre(table: seq<Entry>, a: nat)
    ensures a in BlocksOf(Kept(table))
       <==> exists i: nat, k: nat :: HasBlock(table, i, k) && a == BlockOf(table[i], k)
  {
    var from := KeptRecords(table);
    if a in BlocksOf(Kept(table)) {
      var i, k := BlockEntry(table, from, a);
    }
    forall i: nat, k: nat | HasBlock(table, i, k) && a == BlockOf(table[i], k)
      ensures a in BlocksOf(Kept(table))
    {
      EntryBlock(table, from, i, k);
    }
  }

  lemma CountIsPages(e: Entry)
    requires e.base + e.length <= TWO64 - PAGE
    ensures PageCount(e.base, e.length) == |WholePages(e.base, e.length)|
  {
    PageCountExact(e.base, e.length);
  }

  /** Every RAM entry up to the first type outside 1 to 4 is given as many blocks as it has whole
      pages, from its base on. */
  lemma PagesCounted(table: seq<Entry>, i: nat, k: nat)
    requires Reached(table, i) && table[i].typ == 1 && table[i].base + table[i].length <= TWO64 - PAGE
    requires k < |WholePages(table[i].base, table[i].length)| < 0x1_0000_0000
    ensures BlockOf(table[i], k) in BlocksOf(Kept(table))
  {
    CountIsPages(table[i]);
    var from := KeptRecords(table);
    EntryBlock(table, from, i, k);
  }

  lemma AlignedPage(e: Entry, p: nat) returns (k: nat)
    requires e.base % PAGE == 0 && p in WholePages(e.base, e.length)
    ensures k < |WholePages(e.base, e.length)| && p * PAGE == BlockOf(e, k)
  {
    WholePagesSize(e.base, e.length);
    k := p - e.base / PAGE;
  }

  /** Those blocks are the whole pages themselves if and only if the entry starts at a page
      boundary. */
  lemma PagesBecomeBlocks(table: seq<Entry>, i: nat)
    requires SaneTable(table) && Reached(table, i) && table[i].typ == 1
    requires 0 < |WholePages(table[i].base, table[i].length)| < 0x1_0000_0000
    ensures (forall p <- WholePages(table[i].base, table[i].length) :: p * PAGE in BlocksOf(Kept(table)))
       <==> table[i].base % PAGE == 0
  {
    var e, pages := table[i], WholePages(table[i].base, table[i].length);
    if e.base % PAGE == 0 {
      forall p | p in pages
        ensures p * PAGE in BlocksOf(Kept(table))
      {
        var k := AlignedPage(e, p);
        PagesCounted(table, i, k);
      }
    } else {
      var p :| p in pages;
      UnalignedPage(table, i, p);
    }
  }

  lemma UnalignedPage(table: seq<Entry>, i: nat, p: nat)
    requires SaneTable(table) && i < |table| && table[i].typ == 1 && table[i].base % PAGE != 0
    requires p in WholePages(table[i].base, table[i].length)
    ensures p * PAGE !in BlocksOf(Kept(table))
  {
    BlocksAre(table, p * PAGE);
    forall j: nat, k: nat | HasBlock(table, j, k)
      ensures p * PAGE != BlockOf(table[j], k)
    {
      NotThisPage(table, i, p, j, k);
    }
  }

  lemma BlockUnaligned(e: Entry, p: nat, k: nat)
    requires e.base % PAGE != 0
    ensures p * PAGE != BlockOf(e, k)
  {
  }

  lemma BlockInEntry(e: Entry, k: nat)
    requires e.base + e.length <= TWO64 - PAGE && k < PageCount(e.base, e.length)
    ensures e.base <= BlockOf(e, k) && BlockOf(e, k) + PAGE <= e.base + e.length
  {
    BlocksInside(e.base, e.length);
  }

  // A block of the entry itself is not aligned, and one of another lies in another range.
  lemma NotThisPage(table: seq<Entry>, i: nat, p: nat, j: nat, k: nat)
    requires SaneTable(table) && i < |table| && table[i].typ == 1 && table[i].base % PAGE != 0
    requires p in WholePages(table[i].base, table[i].length) && HasBlock(table, j, k)
    ensures p * PAGE != BlockOf(table[j], k)
  {
    if i == j {
      BlockUnaligned(table[i], p, k);
    } else {
      BlockInEntry(table[j], k);
    }
  }
}
