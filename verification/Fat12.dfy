/** Reading files from the FAT12 floppy: bootloader/floppy/loader.asm and mbr.asm.

    The disk is the sequence of its bytes.  Register arithmetic is written out; reading
    always succeeds. */
module Fat12 {
  import opened Bits
  import opened Options

  const SECTOR: nat := 512
  const DISK_SECTORS: nat := 2880
  const FAT1_START: nat := 1
  const ROOT_DIR_SECTORS: nat := 14
  const ROOT_DIR_START: nat := 19
  const SECTOR_BALANCE: nat := 17
  const END_OF_CHAIN: nat := 0xFFF

  type Disk = d: seq<Byte> | |d| == DISK_SECTORS * SECTOR witness seq(DISK_SECTORS * SECTOR, i => 0)

  function Sectors(disk: Disk, lba: nat, n: nat): (s: seq<Byte>)
    requires lba + n <= DISK_SECTORS
    ensures |s| == n * SECTOR
  {
    disk[lba * SECTOR..(lba + n) * SECTOR]
  }

  // ---------------------------------------------------------------- LBA and CHS

  /** Cylinder, head and sector, as the BIOS takes them. */
  datatype Chs = Chs(cylinder: nat, head: nat, sector: nat)

  /** `read1sector` (bootloader/floppy/loader.asm:747-767): an 8-bit division by 18. */
  function ToChs(lba: nat): Chs {
    var al, ah := lba / 18, lba % 18;
    Chs(al / 2, al % 2, ah + 1)
  }

  /** The sector that a floppy of 2 heads and 18 sectors a track has at an address. */
  function FromChs(at: Chs): int {
    (at.cylinder * 2 + at.head) * 18 + at.sector - 1
  }

  predicate OnFloppy(at: Chs) {
    at.cylinder < 80 && at.head < 2 && 1 <= at.sector <= 18
  }

  /** The mapping is a bijection between the 2880 sectors and the addresses of the floppy. */
  lemma ChsInverts(lba: nat, at: Chs)
    ensures lba < DISK_SECTORS ==> OnFloppy(ToChs(lba)) && FromChs(ToChs(lba)) == lba
    ensures OnFloppy(at) ==> 0 <= FromChs(at) < DISK_SECTORS && ToChs(FromChs(at)) == at
  {
    if OnFloppy(at) {
      var track := at.cylinder * 2 + at.head;
      DivUnique(FromChs(at), 18, track, at.sector - 1);
      DivUnique(track, 2, at.cylinder, at.head);
    }
  }

  /** Sectors are counted along a track, then to the other head, then to the next cylinder. */
  lemma ChsNext(lba: nat)
    ensures ToChs(0) == Chs(0, 0, 1)
    ensures var at := ToChs(lba);
            ToChs(lba + 1) == if at.sector < 18 then Chs(at.cylinder, at.head, at.sector + 1)
                              else if at.head == 0 then Chs(at.cylinder, 1, 1) else Chs(at.cylinder + 1, 0, 1)
  {
    var track, sector := lba / 18, lba % 18;
    if sector < 17 {
      DivUnique(lba + 1, 18, track, sector + 1);
    } else {
      DivUnique(lba + 1, 18, track + 1, 0);
    }
  }

  /** Reads `n` sectors through the CHS address. */
  method ReadSectors(disk: Disk, lba: nat, n: nat) returns (buf: seq<Byte>)
    requires lba + n <= DISK_SECTORS && lba < DISK_SECTORS
    ensures buf == Sectors(disk, lba, n)
  {
    var at := ToChs(lba);
    ChsInverts(lba, at);
    var first := FromChs(at);
    buf := disk[first * SECTOR..(first + n) * SECTOR];
  }

  // ---------------------------------------------------------------- FAT entries

  /** Entry `c` of a table of 12-bit entries. */
  function Decode(fat: seq<Byte>, c: nat): nat
    requires c * 3 / 2 + 1 < |fat|
  {
    var at := c * 3 / 2;
    var word: nat := fat[at] as nat + 256 * fat[at + 1] as nat;
    if c % 2 == 1 then word / 16 else word % 4096
  }

  /** Two entries in three bytes. */
  function Triple(a: nat, b: nat): (bytes: seq<Byte>)
    requires a < 4096 && b < 4096
    ensures |bytes| == 3
  {
    [a % 256, a / 256 + b % 16 * 16, b / 16]
  }

  /** The table with the given entries; the last of an odd number takes two bytes. */
  function Pack(entries: seq<nat>): (fat: seq<Byte>)
    requires forall i :: 0 <= i < |entries| ==> entries[i] < 4096
    ensures |fat| == |entries| / 2 * 3 + (if |entries| % 2 == 1 then 2 else 0)
  {
    if entries == [] then []
    else if |entries| == 1 then Triple(entries[0], 0)[..2]
    else Triple(entries[0], entries[1]) + Pack(entries[2..])
  }

  lemma PairLow(a: nat, b: nat)
    requires a < 4096
    ensures (a % 256 + 256 * (a / 256 + b % 16 * 16)) % 4096 == a
  {
    assert a % 256 + 256 * (a / 256 + b % 16 * 16) == a + 4096 * (b % 16);
  }

  lemma PairHigh(a: nat, b: nat)
    requires a < 4096
    ensures (a / 256 + b % 16 * 16 + 256 * (b / 16)) / 16 == b
  {
    assert a / 256 + b % 16 * 16 + 256 * (b / 16) == a / 256 + 16 * b;
  }

  lemma DecodeTriple(a: nat, b: nat, fat: seq<Byte>)
    requires a < 4096 && b < 4096 && Triple(a, b)[..2] <= fat
    ensures Decode(fat, 0) == a && (Triple(a, b) <= fat ==> Decode(fat, 1) == b)
  {
    var t := Triple(a, b);
    assert fat[0] == t[..2][0] && fat[1] == t[..2][1];
    PairLow(a, b);
    if t <= fat {
      assert fat[2] == t[2];
      PairHigh(a, b);
    }
  }

  lemma ThreeOn(c: nat)
    requires c >= 2
    ensures (c - 2) * 3 / 2 + 3 == c * 3 / 2 && (c - 2) % 2 == c % 2
  {
    assert c * 3 == (c - 2) * 3 + 6;
  }

  lemma DecodeShift(fat: seq<Byte>, c: nat)
    requires c >= 2 && c * 3 / 2 + 1 < |fat|
    ensures (c - 2) * 3 / 2 + 1 < |fat[3..]| && Decode(fat[3..], c - 2) == Decode(fat, c)
  {
    ThreeOn(c);
    var at := (c - 2) * 3 / 2;
    assert fat[3..][at] == fat[at + 3] && fat[3..][at + 1] == fat[at + 1 + 3];
  }

  lemma Behind3(front: seq<Byte>, rest: seq<Byte>, fat: seq<Byte>)
    requires |front| == 3 && front + rest <= fat
    ensures front <= fat && front[..2] <= fat && rest <= fat[3..]
  {
    assert fat == front + fat[3..];
    assert fat[3..][..|rest|] == (front + rest)[3..];
  }

  /** Decoding inverts packing. */
  lemma {:induction false} DecodePacked(entries: seq<nat>, fat: seq<Byte>, c: nat)
    requires forall i :: 0 <= i < |entries| ==> entries[i] < 4096
    requires Pack(entries) <= fat && c < |entries|
    ensures c * 3 / 2 + 1 < |fat| && Decode(fat, c) == entries[c]
  {
    PackedLength(|entries|, c);
    if |entries| == 1 {
      DecodeTriple(entries[0], 0, fat);
    } else {
      Behind3(Triple(entries[0], entries[1]), Pack(entries[2..]), fat);
      DecodeTriple(entries[0], entries[1], fat);
      if c >= 2 {
        DecodePacked(entries[2..], fat[3..], c - 2);
        DecodeShift(fat, c);
      }
    }
  }

  lemma PackedLength(n: nat, c: nat)
    requires c < n
    ensures c * 3 / 2 + 1 < n / 2 * 3 + (if n % 2 == 1 then 2 else 0)
  {
  }

  // A byte of two buffered sectors of the table.
  lemma FatByte(disk: Disk, sector: nat, dx: nat)
    requires sector <= 12 && dx < 2 * SECTOR
    ensures Sectors(disk, FAT1_START + sector, 2)[dx] == disk[FAT1_START * SECTOR..][sector * SECTOR + dx]
  {
  }

  lemma EntryPlace(cluster: nat)
    requires cluster < 4096
    ensures var q := cluster * 3 / 2; q / SECTOR <= 12 && q / SECTOR * SECTOR + q % SECTOR == q && q % SECTOR < SECTOR
    ensures cluster * 3 % 2 == 1 <==> cluster % 2 == 1
  {
  }

  lemma EntryBits(word: nat)
    requires word < 0x1_0000
    ensures word / 16 % 4096 == word / 16
  {
  }

  /** `getfatentry` (bootloader/floppy/loader.asm:821-864): the two sectors from the one that
      holds the first byte of the entry are read, so that an entry may straddle them. */
  method GetFatEntry(disk: Disk, cluster: nat) returns (ax: nat)
    requires cluster < 4096
    ensures ax == Decode(disk[FAT1_START * SECTOR..], cluster) < 4096
  {
    EntryPlace(cluster);
    var product := cluster * 3;
    var q, odd := product / 2, product % 2 == 1;
    var sector, dx := q / SECTOR, q % SECTOR;
    var buf := ReadSectors(disk, FAT1_START + sector, 2);
    FatByte(disk, sector, dx);
    FatByte(disk, sector, dx + 1);
    ax := buf[dx] as nat + 256 * buf[dx + 1] as nat;
    EntryBits(ax);
    if odd { ax := ax / 16; }
    ax := ax % 4096;
  }

  function FatEntry(disk: Disk, cluster: nat): nat
    requires cluster < 4096
  {
    Decode(disk[FAT1_START * SECTOR..], cluster)
  }

  // ---------------------------------------------------------------- chains

  /** The sector of a data cluster; the first data cluster is number 2. */
  function ClusterLba(cluster: nat): nat {
    cluster + ROOT_DIR_SECTORS + SECTOR_BALANCE
  }

  predicate IsDataCluster(c: nat) {
    2 <= c && ClusterLba(c) < DISK_SECTORS
  }

  /** The areas of the floppy, of 1 reserved sector, 2 tables of 9 sectors and 224 directory entries
      (bootloader/floppy/mbr.asm:92-108), follow one another; cluster 2 is the sector right behind
      the directory, the data clusters are the sectors from there on, and the first table holds
      the entries of all of them. */
  lemma AreasFollow(c: nat)
    ensures FAT1_START == 1 && ROOT_DIR_START == FAT1_START + 2 * 9
    ensures ROOT_DIR_SECTORS * SECTOR == 224 * 32 && ClusterLba(2) == ROOT_DIR_START + ROOT_DIR_SECTORS == 33
    ensures c >= 2 ==> ClusterLba(c) - ClusterLba(2) == c - 2
    ensures IsDataCluster(c) <==> 2 <= c < 2 + DISK_SECTORS - 33
    ensures IsDataCluster(c) ==> 33 <= ClusterLba(c) < 2880 && c * 3 / 2 + 1 < 9 * SECTOR
  {
  }

  /** The clusters of a file in order, the last one marked as the end. */
  ghost predicate IsChain(disk: Disk, chain: seq<nat>) {
    && |chain| > 0
    && (forall i :: 0 <= i < |chain| ==> IsDataCluster(chain[i]))
    && (forall i {:trigger chain[i + 1]} :: 0 <= i < |chain| - 1 ==> FatEntry(disk, chain[i]) == chain[i + 1])
    && FatEntry(disk, chain[|chain| - 1]) == END_OF_CHAIN
  }

  function Contents(disk: Disk, chain: seq<nat>): (s: seq<Byte>)
    requires forall i :: 0 <= i < |chain| ==> IsDataCluster(chain[i])
    ensures |s| == |chain| * SECTOR
  {
    if chain == [] then []
    else
      var last := |chain| - 1;
      assert IsDataCluster(chain[last]);
      Contents(disk, chain[..last]) + Sectors(disk, ClusterLba(chain[last]), 1)
  }

  /** Following a table of packed entries gives the chain of the disk. */
  lemma PackedChain(disk: Disk, entries: seq<nat>, chain: seq<nat>)
    requires forall i :: 0 <= i < |entries| ==> entries[i] < 4096
    requires Pack(entries) <= disk[FAT1_START * SECTOR..]
    requires |chain| > 0 && forall i :: 0 <= i < |chain| ==> IsDataCluster(chain[i]) && chain[i] < |entries|
    requires forall i {:trigger chain[i + 1]} :: 0 <= i < |chain| - 1 ==> entries[chain[i]] == chain[i + 1]
    requires entries[chain[|chain| - 1]] == END_OF_CHAIN
    ensures IsChain(disk, chain)
  {
    forall i | 0 <= i < |chain|
      ensures FatEntry(disk, chain[i]) == entries[chain[i]]
    {
      assert IsDataCluster(chain[i]);
      DecodePacked(entries, disk[FAT1_START * SECTOR..], chain[i]);
    }
  }

  /** No cluster comes twice: a chain that ends has no cycle. */
  lemma ChainAcyclic(disk: Disk, chain: seq<nat>, i: nat, j: nat)
    requires IsChain(disk, chain) && i < j < |chain|
    ensures chain[i] != chain[j]
    decreases |chain| - j
  {
    assert IsDataCluster(chain[i]) && IsDataCluster(chain[i + 1]);
    assert chain[i + 1] == FatEntry(disk, chain[i]);
    if j + 1 < |chain| {
      ChainAcyclic(disk, chain, i + 1, j + 1);
      assert chain[j + 1] == FatEntry(disk, chain[j]);
    }
  }

  /** The first cluster determines the chain. */
  lemma {:induction false} ChainUnique(disk: Disk, a: seq<nat>, b: seq<nat>, k: nat)
    requires IsChain(disk, a) && IsChain(disk, b) && a[0] == b[0] && k < |a|
    ensures k < |b| && a[k] == b[k]
  {
    if k > 0 {
      ChainUnique(disk, a, b, k - 1);
      Link(disk, a, k - 1);
      if k < |b| { Link(disk, b, k - 1); }
    }
  }

  // Every cluster but the last leads to the next one, which is not the end mark.
  lemma Link(disk: Disk, chain: seq<nat>, i: nat)
    requires IsChain(disk, chain) && i + 1 < |chain|
    ensures IsDataCluster(chain[i]) && IsDataCluster(chain[i + 1])
    ensures FatEntry(disk, chain[i]) == chain[i + 1] != END_OF_CHAIN
  {
    assert IsDataCluster(chain[i]) && IsDataCluster(chain[i + 1]);
  }

  lemma EndOfChain(disk: Disk, chain: seq<nat>, i: nat)
    requires IsChain(disk, chain) && i < |chain|
    ensures IsDataCluster(chain[i]) && (FatEntry(disk, chain[i]) == END_OF_CHAIN <==> i == |chain| - 1)
  {
    if i < |chain| - 1 { Link(disk, chain, i); } else { assert IsDataCluster(chain[i]); }
  }

  // ---------------------------------------------------------------- loading

  /** `movekernel` (bootloader/floppy/loader.asm:284-292): one sector, byte by byte. */
  method CopySector(mem: array<Byte>, edi: nat, buf: seq<Byte>)
    requires |buf| == SECTOR && edi + SECTOR <= mem.Length
    modifies mem
    ensures mem[..] == old(mem[..edi]) + buf + old(mem[edi + SECTOR..])
  {
    var cx := SECTOR;
    while cx > 0
      invariant 0 <= cx <= SECTOR
      invariant forall k :: 0 <= k < SECTOR - cx ==> mem[edi + k] == buf[k]
      invariant forall k :: (0 <= k < edi || edi + SECTOR <= k < mem.Length) ==> mem[k] == old(mem[k])
    {
      mem[edi + (SECTOR - cx)] := buf[SECTOR - cx];
      cx := cx - 1;
    }
    forall k | edi <= k < edi + SECTOR
      ensures mem[k] == buf[k - edi]
    {
      assert mem[edi + (k - edi)] == buf[k - edi];
    }
  }

  lemma SectorAppended(before: seq<Byte>, front: seq<Byte>, text: seq<Byte>, rest: seq<Byte>, buf: seq<Byte>,
                       after: seq<Byte>)
    requires |buf| == SECTOR <= |rest| && before == front + text + rest
    requires var end := |front| + |text|; after == before[..end] + buf + before[end + SECTOR..]
    ensures after == front + (text + buf) + rest[SECTOR..]
  {
    var end := |front| + |text|;
    assert before[..end] == front + text && before[end + SECTOR..] == rest[SECTOR..];
  }

  /** Memory `orig` with the first `n` sectors of the chain written from `offset` on. */
  ghost predicate Loaded(disk: Disk, chain: seq<nat>, n: nat, orig: seq<Byte>, offset: nat, mem: seq<Byte>)
    requires n <= |chain| && forall k :: 0 <= k < |chain| ==> IsDataCluster(chain[k])
  {
    offset + n * SECTOR <= |orig| && mem == orig[..offset] + Contents(disk, chain[..n]) + orig[offset + n * SECTOR..]
  }

  lemma LoadedNext(disk: Disk, chain: seq<nat>, n: nat, orig: seq<Byte>, offset: nat, before: seq<Byte>,
                   after: seq<Byte>)
    requires n < |chain| && forall k :: 0 <= k < |chain| ==> IsDataCluster(chain[k])
    requires Loaded(disk, chain, n, orig, offset, before) && offset + (n + 1) * SECTOR <= |orig|
    requires var end := offset + n * SECTOR;
             after == before[..end] + ClusterBytes(disk, chain, n) + before[end + SECTOR..]
    ensures Loaded(disk, chain, n + 1, orig, offset, after)
  {
    var rest := orig[offset + n * SECTOR..];
    ContentsNext(disk, chain, n);
    SectorAppended(before, orig[..offset], Contents(disk, chain[..n]), rest, ClusterBytes(disk, chain, n), after);
    assert rest[SECTOR..] == orig[offset + (n + 1) * SECTOR..];
  }

  /** `go_onloadingfile` in the loader (bootloader/floppy/loader.asm:254-314): sector after
      sector is copied to a growing offset until the entry reads 0xFFF. */
  method LoadKernel(disk: Disk, first: nat, mem: array<Byte>, offset: nat, ghost chain: seq<nat>) returns (end: nat)
    requires IsChain(disk, chain) && chain[0] == first
    requires offset + |chain| * SECTOR <= mem.Length
    modifies mem
    ensures end == offset + |chain| * SECTOR
    ensures mem[..] == old(mem[..offset]) + Contents(disk, chain) + old(mem[end..])
  {
    end := offset;
    var cluster := first;
    ghost var i := 0;
    ghost var orig := mem[..];
    assert Loaded(disk, chain, 0, orig, offset, mem[..]);
    while true
      invariant 0 <= i < |chain| && cluster == chain[i] && end == offset + i * SECTOR
      invariant Loaded(disk, chain, i, orig, offset, mem[..])
      decreases |chain| - i
    {
      assert IsDataCluster(chain[i]);
      ghost var before := mem[..];
      var lba := cluster + ROOT_DIR_SECTORS + SECTOR_BALANCE;
      var buf := ReadSectors(disk, lba, 1);
      CopySector(mem, end, buf);
      LoadedNext(disk, chain, i, orig, offset, before, mem[..]);
      end := end + SECTOR;
      var ax := GetFatEntry(disk, cluster);
      i := i + 1;
      EndOfChain(disk, chain, i - 1);
      if ax == END_OF_CHAIN {
        break;
      }
      Link(disk, chain, i - 1);
      cluster := ax;
    }
    assert chain[..i] == chain;
  }

  lemma ContentsNext(disk: Disk, chain: seq<nat>, i: nat)
    requires i < |chain| && forall k :: 0 <= k < |chain| ==> IsDataCluster(chain[k])
    ensures Contents(disk, chain[..i + 1]) == Contents(disk, chain[..i]) + Sectors(disk, ClusterLba(chain[i]), 1)
  {
    assert chain[..i + 1][..i] == chain[..i];
  }

  // ---------------------------------------------------------------- loading into one segment

  const SEGMENT: nat := 0x1_0000

  /** The last sector of the chain before number `n` that falls on the slot. */
  predicate LastOnSlot(n: nat, slot: nat, i: nat) {
    i < n <= i + 128 && i % 128 == slot
  }

  /** What a segment holds after `n` sectors: each 512-byte slot the last sector that was
      loaded there, or what it held before. */
  ghost predicate SegmentHolds(disk: Disk, chain: seq<nat>, n: nat, seg: seq<Byte>, orig: seq<Byte>)
    requires n <= |chain| && |seg| == |orig| == SEGMENT
    requires forall i :: 0 <= i < |chain| ==> IsDataCluster(chain[i])
  {
    forall slot: nat :: slot < 128 ==>
      && (slot >= n ==> Slot(seg, slot) == Slot(orig, slot))
      && (forall i: nat :: LastOnSlot(n, slot, i) ==> Slot(seg, slot) == ClusterBytes(disk, chain, i))
  }

  function ClusterBytes(disk: Disk, chain: seq<nat>, i: nat): seq<Byte>
    requires i < |chain| && forall k :: 0 <= k < |chain| ==> IsDataCluster(chain[k])
  {
    assert IsDataCluster(chain[i]);
    Sectors(disk, ClusterLba(chain[i]), 1)
  }

  function Slot(seg: seq<Byte>, slot: nat): seq<Byte>
    requires slot < 128 && |seg| == SEGMENT
  {
    seg[slot * SECTOR..(slot + 1) * SECTOR]
  }

  /** The loop of the boot sector (bootloader/floppy/mbr.asm:215-228): every sector is read
      straight to `es:bx`, and `bx` is a 16-bit register. */
  method LoadLoader(disk: Disk, first: nat, seg: array<Byte>, ghost chain: seq<nat>)
    requires IsChain(disk, chain) && chain[0] == first && seg.Length == SEGMENT
    modifies seg
    ensures SegmentHolds(disk, chain, |chain|, seg[..], old(seg[..]))
  {
    var cluster, bx := first, 0;
    ghost var i := 0;
    ghost var orig := seg[..];
    while true
      invariant 0 <= i < |chain| && cluster == chain[i] && bx == i % 128 * SECTOR
      invariant SegmentHolds(disk, chain, i, seg[..], orig)
      decreases |chain| - i
    {
      assert IsDataCluster(chain[i]);
      ghost var before := seg[..];
      var buf := ReadSectors(disk, cluster + ROOT_DIR_SECTORS + SECTOR_BALANCE, 1);
      CopySector(seg, bx, buf);
      SlotWritten(disk, chain, i, before, seg[..], orig);
      var ax := GetFatEntry(disk, cluster);
      EndOfChain(disk, chain, i);
      i := i + 1;
      if ax == END_OF_CHAIN {
        break;
      }
      Link(disk, chain, i - 1);
      cluster := ax;
      NextSlot(bx, i);
      bx := (bx + SECTOR) % SEGMENT;
    }
  }

  lemma NextSlot(bx: nat, i: nat)
    requires i > 0 && bx == (i - 1) % 128 * SECTOR
    ensures (bx + SECTOR) % SEGMENT == i % 128 * SECTOR
  {
  }

  lemma SlotWritten(disk: Disk, chain: seq<nat>, n: nat, before: seq<Byte>, after: seq<Byte>, orig: seq<Byte>)
    requires n < |chain| && |before| == |after| == |orig| == SEGMENT
    requires forall k :: 0 <= k < |chain| ==> IsDataCluster(chain[k])
    requires SegmentHolds(disk, chain, n, before, orig)
    requires var at := n % 128 * SECTOR;
             after == before[..at] + ClusterBytes(disk, chain, n) + before[at + SECTOR..]
    ensures SegmentHolds(disk, chain, n + 1, after, orig)
  {
    forall slot: nat | slot < 128
      ensures Slot(after, slot) == if slot == n % 128 then ClusterBytes(disk, chain, n) else Slot(before, slot)
    {
    }
    forall slot: nat, i: nat | slot < 128 && LastOnSlot(n + 1, slot, i)
      ensures Slot(after, slot) == ClusterBytes(disk, chain, i)
    {
      if i == n { } else { assert LastOnSlot(n, slot, i) && slot != n % 128; }
    }
  }

  /** A file of at most 128 sectors is loaded whole, its sectors in order. */
  lemma ShortFile(disk: Disk, chain: seq<nat>, seg: seq<Byte>, orig: seq<Byte>, n: nat)
    requires n <= |chain| && n <= 128 && |seg| == |orig| == SEGMENT
    requires forall k :: 0 <= k < |chain| ==> IsDataCluster(chain[k])
    requires SegmentHolds(disk, chain, |chain|, seg, orig) && |chain| <= 128
    ensures seg[..n * SECTOR] == Contents(disk, chain[..n])
  {
    if n > 0 {
      ShortFile(disk, chain, seg, orig, n - 1);
      ContentsNext(disk, chain, n - 1);
      assert LastOnSlot(|chain|, n - 1, n - 1);
      assert Slot(seg, n - 1) == ClusterBytes(disk, chain, n - 1);
      assert seg[..n * SECTOR] == seg[..(n - 1) * SECTOR] + Slot(seg, n - 1);
    }
  }

  // ---------------------------------------------------------------- the end mark

  /** fatgen103, "FAT Type Determination": an entry of 0xFF8 or above ends a chain. */
  predicate IsEndMark(entry: nat) { 0xFF8 <= entry < 4096 }

  /** A file as the format describes it: linked data clusters up to an end mark. */
  ghost predicate IsFile(disk: Disk, file: seq<nat>) {
    && |file| > 0
    && (forall i :: 0 <= i < |file| ==> IsDataCluster(file[i]))
    && (forall i {:trigger file[i + 1]} :: 0 <= i < |file| - 1 ==> FatEntry(disk, file[i]) == file[i + 1])
    && IsEndMark(FatEntry(disk, file[|file| - 1]))
  }

  lemma FileLink(disk: Disk, file: seq<nat>, i: nat)
    requires IsFile(disk, file) && i + 1 < |file|
    ensures IsDataCluster(file[i]) && IsDataCluster(file[i + 1]) && FatEntry(disk, file[i]) == file[i + 1]
  {
    assert IsDataCluster(file[i]) && IsDataCluster(file[i + 1]);
  }

  // A chain that starts like a file goes through all clusters of the file.
  lemma {:induction false} ChainFollows(disk: Disk, file: seq<nat>, chain: seq<nat>, k: nat)
    requires IsFile(disk, file) && IsChain(disk, chain) && chain[0] == file[0] && k < |file|
    ensures k < |chain| && chain[k] == file[k]
  {
    if k > 0 {
      ChainFollows(disk, file, chain, k - 1);
      FileLink(disk, file, k - 1);
      EndOfChain(disk, chain, k - 1);
      if k < |chain| { Link(disk, chain, k - 1); }
    }
  }

  /** The code tests for 0xFFF alone.  From the first cluster of a file it follows a chain that
      ends, if and only if the file is marked with 0xFFF, and the chain is the file; with any
      other end mark the next sector is one that the disk does not have. */
  lemma EndTest(disk: Disk, file: seq<nat>)
    requires IsFile(disk, file)
    ensures var mark := FatEntry(disk, file[|file| - 1]);
            && (mark == 0xFFF <==> IsChain(disk, file))
            && (mark == 0xFFF <==> exists chain :: IsChain(disk, chain) && chain[0] == file[0])
            && (mark != 0xFFF ==> ClusterLba(mark) >= DISK_SECTORS)
  {
    var last := |file| - 1;
    assert IsDataCluster(file[last]);
    forall chain | IsChain(disk, chain) && chain[0] == file[0]
      ensures FatEntry(disk, file[last]) == END_OF_CHAIN
    {
      ChainFollows(disk, file, chain, last);
      if last + 1 < |chain| {
        Link(disk, chain, last);
      }
    }
  }

  // ---------------------------------------------------------------- directory search

  const ENTRIES_PER_SECTOR: nat := 16
  const NAME_LENGTH: nat := 11

  /** Directory entry `e` of a stretch of the directory has the name. */
  predicate Matches(dir: seq<Byte>, e: nat, name: seq<Byte>)
    requires (e + 1) * 32 <= |dir| && |name| == NAME_LENGTH
  {
    dir[e * 32..e * 32 + NAME_LENGTH] == name
  }

  /** The comparison at `cmpfilename` (bootloader/floppy/mbr.asm:157-168). */
  method CompareName(buf: seq<Byte>, di: nat, name: seq<Byte>) returns (found: bool)
    requires |name| == NAME_LENGTH && di + 32 <= |buf|
    ensures found <==> buf[di..di + NAME_LENGTH] == name
  {
    var cx, si, at := NAME_LENGTH, 0, di;
    while cx != 0
      invariant 0 <= cx <= NAME_LENGTH && si == NAME_LENGTH - cx && at == di + si
      invariant forall k :: 0 <= k < si ==> buf[di + k] == name[k]
    {
      cx := cx - 1;
      var al := name[si];
      si := si + 1;
      if al != buf[at] {
        assert buf[di..di + NAME_LENGTH][si - 1] == buf[at];
        return false;
      }
      at := at + 1;
    }
    return true;
  }

  /** The sixteen entries of one buffered directory sector, first match first
      (bootloader/floppy/mbr.asm:146-174). */
  method SearchSector(buf: seq<Byte>, name: seq<Byte>) returns (r: Option<nat>)
    requires |buf| == SECTOR && |name| == NAME_LENGTH
    ensures r.Some? ==> r.value < ENTRIES_PER_SECTOR && Matches(buf, r.value, name)
                        && forall e: nat :: e < r.value ==> !Matches(buf, e, name)
    ensures r.None? ==> forall e: nat :: e < ENTRIES_PER_SECTOR ==> !Matches(buf, e, name)
  {
    var di, dx := 0, ENTRIES_PER_SECTOR;
    while dx != 0
      invariant 0 <= dx <= ENTRIES_PER_SECTOR && di == (ENTRIES_PER_SECTOR - dx) * 32
      invariant forall e: nat :: e < ENTRIES_PER_SECTOR - dx ==> !Matches(buf, e, name)
    {
      dx := dx - 1;
      var found := CompareName(buf, di, name);
      if found {
        return Some(di / 32);
      }
      di := di + 32;
    }
    return None;
  }

  function RootDir(disk: Disk): seq<Byte> {
    Sectors(disk, ROOT_DIR_START, ROOT_DIR_SECTORS)
  }

  /** The search of the boot sector: each of the 14 directory sectors is read and searched.
      The buffer keeps the last sector read. */
  method SearchRoot(disk: Disk, name: seq<Byte>) returns (r: Option<nat>, buf: seq<Byte>)
    requires |name| == NAME_LENGTH
    ensures |buf| == SECTOR
    ensures r.Some? ==> r.value < 224 && Matches(RootDir(disk), r.value, name)
                        && (forall e: nat :: e < r.value ==> !Matches(RootDir(disk), e, name))
                        && buf == Sectors(disk, ROOT_DIR_START + r.value / 16, 1)
    ensures r.None? ==> forall e: nat :: e < 224 ==> !Matches(RootDir(disk), e, name)
  {
    var sectorNo, loops := ROOT_DIR_START, ROOT_DIR_SECTORS;
    ghost var done := 0;
    buf := seq(SECTOR, _ => 0);
    while loops != 0
      invariant 0 <= loops <= ROOT_DIR_SECTORS && done == ROOT_DIR_SECTORS - loops && sectorNo == ROOT_DIR_START + done
      invariant |buf| == SECTOR
      invariant forall e: nat :: e < done * 16 ==> !Matches(RootDir(disk), e, name)
    {
      loops := loops - 1;
      buf := ReadSectors(disk, sectorNo, 1);
      var found := SearchSector(buf, name);
      forall e: nat | e < 16
        ensures Matches(buf, e, name) == Matches(RootDir(disk), done * 16 + e, name)
      {
        EntryInSector(disk, done, e);
      }
      if found.Some? {
        r := Some((sectorNo - ROOT_DIR_START) * 16 + found.value);
        forall e: nat | e < r.value
          ensures !Matches(RootDir(disk), e, name)
        {
          if e >= done * 16 { assert !Matches(buf, e - done * 16, name); }
        }
        return;
      }
      forall e: nat | e < (done + 1) * 16
        ensures !Matches(RootDir(disk), e, name)
      {
        if e >= done * 16 { assert !Matches(buf, e - done * 16, name); }
      }
      sectorNo := sectorNo + 1;
      done := done + 1;
    }
    return None, buf;
  }

  lemma SliceOfSlice<T>(t: seq<T>, from: nat, to: nat, i: nat, j: nat)
    requires from <= to <= |t| && i <= j <= to - from
    ensures t[from..to][i..j] == t[from + i..from + j]
  {
    var whole, inner, outer := t[from..to], t[from..to][i..j], t[from + i..from + j];
    forall k | 0 <= k < j - i
      ensures inner[k] == outer[k]
    {
      assert inner[k] == whole[i + k];
    }
    assert inner == outer;
  }

  lemma EntryInSector(disk: Disk, s: nat, e: nat)
    requires s < ROOT_DIR_SECTORS && e < 16
    ensures var buf := Sectors(disk, ROOT_DIR_START + s, 1);
            buf[e * 32..e * 32 + NAME_LENGTH] == RootDir(disk)[(s * 16 + e) * 32..(s * 16 + e) * 32 + NAME_LENGTH]
  {
    var base := ROOT_DIR_START * SECTOR;
    SliceOfSlice(disk, (ROOT_DIR_START + s) * SECTOR, (ROOT_DIR_START + s + 1) * SECTOR, e * 32, e * 32 + NAME_LENGTH);
    SliceOfSlice(disk, base, base + ROOT_DIR_SECTORS * SECTOR, (s * 16 + e) * 32, (s * 16 + e) * 32 + NAME_LENGTH);
  }

  /** The first cluster of a directory entry, two bytes at offset 0x1A. */
  function FirstCluster(dir: seq<Byte>, e: nat): nat
    requires (e + 1) * 32 <= |dir|
  {
    dir[e * 32 + 0x1A] as nat + 256 * dir[e * 32 + 0x1B] as nat
  }

  /** A directory entry (bootloader/floppy/mbr.asm:193-199). */
  datatype DirEntry = DirEntry(name: seq<Byte>, attributes: Byte, reserved: seq<Byte>, time: nat, date: nat,
                               cluster: nat, size: nat)
  {
    predicate WellFormed() {
      && |name| == NAME_LENGTH && |reserved| == 10
      && time < 0x1_0000 && date < 0x1_0000 && cluster < 0x1_0000 && size < 0x1_0000_0000
    }

    /** Its 32 bytes. */
    function Bytes(): (bytes: seq<Byte>)
      requires WellFormed()
      ensures |bytes| == 32
    {
      name + [attributes] + reserved + Little(time, 2) + Little(date, 2) + Little(cluster, 2) + Little(size, 4)
    }
  }

  /** The lowest `k` bytes of a number, the lowest first. */
  function Little(n: nat, k: nat): (bytes: seq<Byte>)
    ensures |bytes| == k
  {
    if k == 0 then [] else [n % 256] + Little(n / 256, k - 1)
  }

  lemma LittlePair(n: nat)
    requires n < 0x1_0000
    ensures Little(n, 2) == [n % 256, n / 256]
  {
    assert Little(n / 256, 1) == [n / 256 % 256] + Little(n / 256 / 256, 0);
  }

  /** The name and the cluster that the search and the load read are those the entry was
      written with, wherever it stands in the directory. */
  lemma EntryReadBack(before: seq<Byte>, entry: DirEntry, after: seq<Byte>, e: nat, name: seq<Byte>)
    requires entry.WellFormed() && |before| == e * 32 && |name| == NAME_LENGTH
    ensures var dir := before + entry.Bytes() + after;
            FirstCluster(dir, e) == entry.cluster && (Matches(dir, e, name) <==> name == entry.name)
  {
    var dir, bytes := before + entry.Bytes() + after, entry.Bytes();
    LittlePair(entry.cluster);
    assert forall k :: 0 <= k < 32 ==> dir[e * 32 + k] == bytes[k];
    assert bytes[0x1A] == entry.cluster % 256 && bytes[0x1B] == entry.cluster / 256;
    assert dir[e * 32..e * 32 + NAME_LENGTH] == bytes[..NAME_LENGTH] == entry.name;
  }

  predicate FirstMatch(dir: seq<Byte>, e: nat, name: seq<Byte>)
    requires (e + 1) * 32 <= |dir| && |name| == NAME_LENGTH
  {
    Matches(dir, e, name) && forall d: nat :: d < e ==> !Matches(dir, d, name)
  }

  lemma ClusterInSector(disk: Disk, s: nat, e: nat)
    requires s < ROOT_DIR_SECTORS && e < 16
    ensures FirstCluster(Sectors(disk, ROOT_DIR_START + s, 1), e) == FirstCluster(RootDir(disk), s * 16 + e)
  {
    var buf, dir := Sectors(disk, ROOT_DIR_START + s, 1), RootDir(disk);
    assert buf[e * 32 + 0x1A] == disk[(ROOT_DIR_START + s) * SECTOR + e * 32 + 0x1A] == dir[(s * 16 + e) * 32 + 0x1A];
    assert buf[e * 32 + 0x1B] == disk[(ROOT_DIR_START + s) * SECTOR + e * 32 + 0x1B] == dir[(s * 16 + e) * 32 + 0x1B];
  }

  /** The boot sector from the search to the jump (bootloader/floppy/mbr.asm:133-231): the file
      of the first directory entry with the name is loaded; without one, nothing is. */
  method LoadByName(disk: Disk, name: seq<Byte>, seg: array<Byte>, ghost chain: seq<nat>) returns (loaded: bool)
    requires |name| == NAME_LENGTH && seg.Length == SEGMENT
    requires forall e: nat :: e < 224 && FirstMatch(RootDir(disk), e, name) ==>
               IsChain(disk, chain) && chain[0] == FirstCluster(RootDir(disk), e)
    modifies seg
    ensures loaded <==> exists e: nat :: e < 224 && Matches(RootDir(disk), e, name)
    ensures loaded ==> IsChain(disk, chain) && SegmentHolds(disk, chain, |chain|, seg[..], old(seg[..]))
    ensures loaded && |chain| <= 128 ==> seg[..|chain| * SECTOR] == Contents(disk, chain)
    ensures !loaded ==> seg[..] == old(seg[..])
  {
    var r, buf := SearchRoot(disk, name);
    if r.None? { return false; }
    var di := r.value % 16 * 32 + 0x1A;
    ClusterInSector(disk, r.value / 16, r.value % 16);
    assert FirstMatch(RootDir(disk), r.value, name);
    var cluster := buf[di] as nat + 256 * buf[di + 1] as nat;
    ghost var orig := seg[..];
    LoadLoader(disk, cluster, seg, chain);
    if |chain| <= 128 {
      ShortFile(disk, chain, seg[..], orig, |chain|);
      assert chain[..|chain|] == chain;
    }
    return true;
  }

  /** The loader goes through the buffer left by the boot sector fourteen times and reads no
      directory sector itself (bootloader/floppy/loader.asm:186-229), so it finds the kernel if
      and only if the kernel's entry is in the same directory sector as its own. */
  method SearchBoth(disk: Disk, loader: seq<Byte>, kernel: seq<Byte>) returns (own: Option<nat>, found: Option<nat>)
    requires |loader| == |kernel| == NAME_LENGTH
    ensures own.Some? <==> exists e: nat :: e < 224 && Matches(RootDir(disk), e, loader)
    ensures own.Some? ==>
              own.value < 224 && Matches(RootDir(disk), own.value, loader)
              && (found.Some? <==> exists e: nat :: e < 224 && e / 16 == own.value / 16
                                    && Matches(RootDir(disk), e, kernel))
    ensures own.None? ==> found.None?
  {
    var buf;
    own, buf := SearchRoot(disk, loader);
    found := None;
    if own.None? { return; }
    var s := own.value / 16;
    forall e: nat | e < 16
      ensures Matches(buf, e, kernel) == Matches(RootDir(disk), s * 16 + e, kernel)
    {
      EntryInSector(disk, s, e);
    }
    var loops := ROOT_DIR_SECTORS;
    while loops != 0
      invariant 0 <= loops <= ROOT_DIR_SECTORS && found.None?
      invariant loops < ROOT_DIR_SECTORS ==> forall e: nat :: e < 16 ==> !Matches(buf, e, kernel)
    {
      loops := loops - 1;
      found := SearchSector(buf, kernel);
      if found.Some? {
        assert (s * 16 + found.value) / 16 == s;
        assert Matches(RootDir(disk), s * 16 + found.value, kernel);
        return;
      }
    }
    forall e: nat | e < 224 && e / 16 == s
      ensures !Matches(RootDir(disk), e, kernel)
    {
      assert e == s * 16 + e % 16;
      assert !Matches(buf, e % 16, kernel);
    }
  }
}
