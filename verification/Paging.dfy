/** The boot page tables (kern/entrypgdir.c) and the clearing of the BSS through them (kern/init.c). */
module Paging {
  import opened Arith
  import opened Boot
  import opened CTypes
  import opened Memory

  const KERNBASE := 0xF000_0000
  const NPENTRIES := 1024
  const PTSIZE := 0x40_0000
  const PTE_P := 1
  const PTE_W := 2

  // ---------- Linear addresses (inc/mmu.h) ----------

  function Pdx(la: uint32): nat { la / PTSIZE % NPENTRIES }

  function Ptx(la: uint32): nat { la / PAGE % NPENTRIES }

  function PgOff(la: uint32): nat { la % PAGE }

  function PgAddr(d: nat, t: nat, o: nat): nat { d * PTSIZE + t * PAGE + o }

  function PteAddr(pte: uint32): uint32 { pte - pte % PAGE }

  /** An address is put together again from its three parts. */
  lemma AddressOfParts(la: uint32)
    ensures Pdx(la) < NPENTRIES && Ptx(la) < NPENTRIES && PgOff(la) < PAGE
    ensures PgAddr(Pdx(la), Ptx(la), PgOff(la)) == la
  {
    var page := la / PAGE;
    assert la == page * PAGE + PgOff(la);
    assert page == page / NPENTRIES * NPENTRIES + Ptx(la);
    assert la / PTSIZE == page / NPENTRIES;
  }

  /** And every choice of three parts is an address with these parts. */
  lemma PartsOfAddress(d: nat, t: nat, o: nat)
    requires d < NPENTRIES && t < NPENTRIES && o < PAGE
    ensures var a := PgAddr(d, t, o); a < ADDRESSES && Pdx(a) == d && Ptx(a) == t && PgOff(a) == o
  {
    var a := PgAddr(d, t, o);
    assert a == (d * NPENTRIES + t) * PAGE + o;
    assert a / PAGE == d * NPENTRIES + t;
    assert a == d * PTSIZE + (t * PAGE + o);
    assert a / PTSIZE == d;
  }

  // ---------- The tables ----------

  /** entry_pgdir, for a page table at physical address pt */
  function EntryPgdir(pt: uint32, i: nat): uint32
    requires pt % PAGE == 0
  {
    if i == 0 then pt + PTE_P else if i == KERNBASE / PTSIZE then pt + PTE_P + PTE_W else 0
  }

  /** entry_pgtable */
  function EntryPgtable(i: nat): uint32
    requires i < NPENTRIES
  {
    i * PAGE + PTE_P + PTE_W
  }

  predicate Present(pte: uint32) { pte % 2 == 1 }

  predicate Writable(pte: uint32) { pte / 2 % 2 == 1 }

  datatype Access = Fault | At(pa: uint32)

  /** The address translation of the MMU with these tables (CR0_WP is set, so that a write needs PTE_W twice). */
  function Walk(pt: uint32, la: uint32, write: bool): Access
    requires pt % PAGE == 0
  {
    var pde := EntryPgdir(pt, Pdx(la));
    if !Present(pde) || (write && !Writable(pde)) || PteAddr(pde) != pt then Fault
    else
      var pte := EntryPgtable(Ptx(la));
      if !Present(pte) || (write && !Writable(pte)) then Fault else At(PteAddr(pte) + PgOff(la))
  }

  /** The flags of an entry do not disturb its address. */
  lemma PresentBits(pa: uint32)
    requires pa % PAGE == 0
    ensures PteAddr(pa + PTE_P) == pa && Present(pa + PTE_P) && !Writable(pa + PTE_P)
  {
    var q := pa / PAGE;
    DivUnique(pa + 1, 4096, q, 1);
    DivUnique(pa + 1, 2, 2048 * q, 1);
    DivUnique(2048 * q, 2, 1024 * q, 0);
  }

  lemma WritableBits(pa: uint32)
    requires pa % PAGE == 0
    ensures var e := pa + PTE_P + PTE_W; PteAddr(e) == pa && Present(e) && Writable(e)
  {
    var q := pa / PAGE;
    DivUnique(pa + 3, 4096, q, 3);
    DivUnique(pa + 3, 2, 2048 * q + 1, 1);
    DivUnique(2048 * q + 1, 2, 1024 * q, 1);
  }

  lemma DirectoryIndex(la: uint32)
    ensures Ptx(la) < NPENTRIES
    ensures Pdx(la) == 0 <==> la < PTSIZE
    ensures Pdx(la) == KERNBASE / PTSIZE <==> KERNBASE <= la < KERNBASE + PTSIZE
    ensures Pdx(la) == 0 ==> Ptx(la) * PAGE + PgOff(la) == la
    ensures Pdx(la) == KERNBASE / PTSIZE ==> Ptx(la) * PAGE + PgOff(la) == la - KERNBASE
  {
    AddressOfParts(la);
  }

  /** The tables map [KERNBASE, KERNBASE + 4MB) for writing, and [0, 4MB) for reading, to [0, 4MB), and nothing else. */
  lemma EntryMapping(pt: uint32, la: uint32, write: bool)
    requires pt % PAGE == 0
    ensures Walk(pt, la, write) ==
      if KERNBASE <= la < KERNBASE + PTSIZE then At(la - KERNBASE)
      else if la < PTSIZE && !write then At(la)
      else Fault
  {
    hide PteAddr, Present, Writable, Pdx, Ptx, PgOff;
    DirectoryIndex(la);
    PresentBits(pt);
    WritableBits(pt);
    WritableBits(Ptx(la) * PAGE);
    NotPresent();
  }

  /** The entries themselves: the directory maps its first and its 960th 4MB by the page table, whose entry i maps page i. */
  lemma EntriesAre(pt: uint32, i: nat)
    requires pt % 4096 == 0 && i < 1024
    ensures EntryPgdir(pt, i) == if i == 0 then pt + 1 else if i == 960 then pt + 3 else 0
    ensures EntryPgtable(i) == 4096 * i + 3
    ensures PgAddr(i, 0, 0) == 0x40_0000 * i && PgAddr(0, i, 0) == 0x1000 * i && PgAddr(0, 0, i) == i
  {
  }

  /** In numbers: the 4MB at 0xf0000000 are mapped to the first 4MB, which are mapped to themselves for reading. */
  lemma MappedAddresses(pt: uint32, la: uint32)
    requires pt % 4096 == 0
    ensures 0xF000_0000 <= la < 0xF040_0000 ==> Walk(pt, la, true) == Walk(pt, la, false) == At(la - 0xF000_0000)
    ensures la < 0x40_0000 ==> Walk(pt, la, false) == At(la) && Walk(pt, la, true) == Fault
    ensures 0x40_0000 <= la < 0xF000_0000 || la >= 0xF040_0000 ==> Walk(pt, la, true) == Walk(pt, la, false) == Fault
  {
    hide Walk;
    EntryMapping(pt, la, true);
    EntryMapping(pt, la, false);
  }

  lemma NotPresent()
    ensures !Present(0)
  {
  }

  // ---------- Clearing the BSS ----------

  /** A byte store at a mapped virtual address. */
  method StoreVirtual(mem: array<byte>, pt: uint32, va: uint32, b: byte)
    requires mem.Length == ADDRESSES && pt % PAGE == 0 && Walk(pt, va, true).At?
    modifies mem
    ensures mem[..] == old(mem[..])[Walk(pt, va, true).pa := b]
  {
    var access := Walk(pt, va, true);
    mem[access.pa] := b;
  }

  /** memset of lib/string.c at virtual addresses, for the value 0 of the BSS clear */
  method ClearVirtual(mem: array<byte>, pt: uint32, v: uint32, n: nat)
    requires mem.Length == ADDRESSES && pt % PAGE == 0 && KERNBASE <= v && v + n <= KERNBASE + PTSIZE
    modifies mem
    ensures Filled(old(mem[..]), mem[..], v - KERNBASE, 0, n)
  {
    hide Walk;
    ghost var m := mem[..];
    if n == 0 { return; }
    if v % 4 == 0 && n % 4 == 0 {
      for i := 0 to n / 4
        invariant Filled(m, mem[..], v - KERNBASE, 0, 4 * i)
      {
        for j := 0 to 4
          invariant Filled(m, mem[..], v - KERNBASE, 0, 4 * i + j)
        {
          EntryMapping(pt, v + 4 * i + j, true);
          StoreVirtual(mem, pt, v + 4 * i + j, 0);
        }
      }
    } else {
      for i := 0 to n
        invariant Filled(m, mem[..], v - KERNBASE, 0, i)
      {
        EntryMapping(pt, v + i, true);
        StoreVirtual(mem, pt, v + i, 0);
      }
    }
  }

  /** The memory image of a PT_LOAD segment (chapter 5, Program Header, of the System V gABI):
      the bytes of the file, and zeros up to p_memsz. */
  ghost predicate PtLoad(m: seq<byte>, disk: Disk, s: Proghdr) {
    && s.pa + s.memsz <= |m| && s.filesz <= s.memsz
    && HasBytes(m, disk, s, s.filesz)
    && forall a :: s.pa + s.filesz <= a < s.pa + s.memsz ==> m[a] == 0
  }

  /** Only the last segment has a BSS, apart from the bytes of the others; the symbols edata and end mark it, in the
      memory that the boot tables map. */
  ghost predicate BssIsLast(h: seq<byte>, edata: uint32, end: uint32)
    requires TableFits(h)
  {
    && PhNum(h) > 0
    && (var last := Segment(h, PhNum(h) - 1);
        && last.filesz <= last.memsz
        && edata == KERNBASE + last.pa + last.filesz && end == KERNBASE + last.pa + last.memsz
        && end <= KERNBASE + PTSIZE
        && forall i :: 0 <= i < PhNum(h) - 1 ==> FileOnly(Segment(h, i), edata - KERNBASE, end - KERNBASE))
  }

  /** A segment without a BSS and with no byte in [lo, hi). */
  predicate FileOnly(s: Proghdr, lo: int, hi: int) {
    s.filesz == s.memsz && Min(s.pa + s.memsz, hi) <= Max(s.pa, lo)
  }

  /** The file part of every segment is in memory after all reads, by the layout of the image. */
  ghost predicate FilesInPlace(h: seq<byte>)
    requires TableFits(h)
  {
    forall i :: 0 <= i < PhNum(h) ==> InPlace(h, i, Segment(h, i).filesz)
  }

  /** Clearing the BSS completes the last segment and leaves the others. */
  lemma ClearCompletes(m: seq<byte>, m1: seq<byte>, disk: Disk, h: seq<byte>, edata: uint32, end: uint32)
    requires TableFits(h) && BssIsLast(h, edata, end) && |m| == ADDRESSES
    requires forall i :: 0 <= i < PhNum(h) ==> HasBytes(m, disk, Segment(h, i), Segment(h, i).filesz)
    requires Filled(m, m1, edata - KERNBASE, 0, end - edata)
    ensures forall i :: 0 <= i < PhNum(h) ==> PtLoad(m1, disk, Segment(h, i))
  {
    hide Segment, Image;
    forall i | 0 <= i < PhNum(h) ensures PtLoad(m1, disk, Segment(h, i)) {
      var s := Segment(h, i);
      assert HasBytes(m, disk, s, s.filesz);
      assert i < PhNum(h) - 1 ==> FileOnly(s, edata - KERNBASE, end - KERNBASE);
    }
  }

  /** bootmain, and the memset that i386_init starts with: every segment has its PT_LOAD meaning. */
  method LoadKernel(mem: array<byte>, disk: Disk, pt: uint32, edata: uint32, end: uint32) returns (entry: uint32)
    requires mem.Length == ADDRESSES && pt % PAGE == 0
    requires Le32(Header(disk), 0) == ELF_MAGIC && Readable(Header(disk))
    requires FilesInPlace(Header(disk)) && BssIsLast(Header(disk), edata, end)
    modifies mem
    ensures entry == Le32(Header(disk), 24)
    ensures forall i :: 0 <= i < PhNum(Header(disk)) ==> PtLoad(mem[..], disk, Segment(Header(disk), i))
  {
    hide LoadedMemory, Segment, PtLoad, Filled, Le32, InPlace, HasBytes;
    ghost var h, before := Header(disk), mem[..];
    var out := BootMain(mem, disk);
    entry := out.entry;
    ghost var m := mem[..];
    forall i | 0 <= i < PhNum(h) ensures HasBytes(m, disk, Segment(h, i), Segment(h, i).filesz) {
      InPlaceIsLoaded(before, disk, i, Segment(h, i).filesz);
    }
    ClearVirtual(mem, pt, edata, end - edata);
    ClearCompletes(m, mem[..], disk, h, edata, end);
  }

  /** Segments in increasing order meet what LoadKernel asks of the layout, up to the place of the symbols. */
  lemma WellFormedFiles(h: seq<byte>)
    requires WellFormed(h) && forall i :: 0 <= i < PhNum(h) ==> Segment(h, i).filesz <= Segment(h, i).memsz
    ensures Readable(h) && FilesInPlace(h)
  {
    hide Segment, WellFormed, Readable, Position, SameByte;
    WellFormedIsReadable(h);
    assert TableFits(h) by { ReadableMeans(h); }
    forall i | 0 <= i < PhNum(h) ensures InPlace(h, i, Segment(h, i).filesz) {
      WellFormedIsInPlace(h, i);
    }
  }
}
