/** The boot loader on an ELF image, byte by byte: what is on the disk, and what is in memory afterwards. */
module Elf {
  import opened Boot
  import opened CTypes

  /** The bytes of a word, the least significant first, are at a position of the disk. */
  ghost predicate Holds4(disk: Disk, at: nat, w: uint32) {
    && disk(at) == w % 0x100 && disk(at + 1) == w / 0x100 % 0x100
    && disk(at + 2) == w / 0x1_0000 % 0x100 && disk(at + 3) == w / 0x100_0000
  }

  ghost predicate Holds2(disk: Disk, at: nat, w: uint16) {
    disk(at) == w % 0x100 && disk(at + 1) == w / 0x100
  }

  /** The second sector starts with the magic number. */
  predicate IsElf(disk: Disk) {
    disk(512) == 0x7F && disk(513) == 0x45 && disk(514) == 0x4C && disk(515) == 0x46
  }

  /** The image has an entry point and program headers for these segments (chapters 4 and 5 of the System V gABI). */
  ghost predicate Describes(disk: Disk, entry: uint32, phoff: uint32, segments: seq<Proghdr>) {
    && |segments| < 0x1_0000 && phoff + 32 * |segments| <= 4096
    && Holds4(disk, 512 + 24, entry) && Holds4(disk, 512 + 28, phoff) && Holds2(disk, 512 + 44, |segments|)
    && forall i :: 0 <= i < |segments| ==> HasHeaderFor(disk, phoff + 32 * i, segments[i])
  }

  ghost predicate HasHeaderFor(disk: Disk, at: nat, s: Proghdr) {
    && Holds4(disk, 512 + at + 4, s.offset) && Holds4(disk, 512 + at + 12, s.pa)
    && Holds4(disk, 512 + at + 16, s.filesz) && Holds4(disk, 512 + at + 20, s.memsz)
  }

  /** Sectors line up with file offsets, stay away from the page at 0x10000, and come in increasing order. */
  ghost predicate Ordered(segments: seq<Proghdr>) {
    && (forall i :: 0 <= i < |segments| ==> Aligned(segments[i]))
    && forall i, j :: 0 <= i < j < |segments| ==> segments[i].pa + segments[i].memsz <= segments[j].pa / 512 * 512
  }

  predicate Aligned(s: Proghdr) {
    && s.pa % 512 == s.offset % 512 && s.pa + s.memsz <= 0xFFFF_FE00
    && (s.pa + s.memsz <= 0x1_0000 || 0x1_1000 <= s.pa)
  }

  // ---------- What the loader reads ----------

  lemma FourBytes(w: uint32)
    ensures w == w % 0x100 + 0x100 * (w / 0x100 % 0x100) + 0x1_0000 * (w / 0x1_0000 % 0x100) + 0x100_0000 * (w / 0x100_0000)
  {
    var q1, q2, q3 := w / 0x100, w / 0x1_0000, w / 0x100_0000;
    assert w == q1 * 0x100 + w % 0x100;
    assert q2 == q1 / 0x100 && q3 == q2 / 0x100;
    assert q1 == q2 * 0x100 + q1 % 0x100 && q2 == q3 * 0x100 + q2 % 0x100;
  }

  lemma Reads4(h: seq<byte>, at: nat, w: uint32)
    requires at + 4 <= |h|
    requires h[at] == w % 0x100 && h[at + 1] == w / 0x100 % 0x100 && h[at + 2] == w / 0x1_0000 % 0x100
    requires h[at + 3] == w / 0x100_0000
    ensures Le32(h, at) == w
  {
    FourBytes(w);
  }

  lemma Field4(disk: Disk, at: nat, w: uint32)
    requires at + 4 <= 4096 && Holds4(disk, 512 + at, w)
    ensures Le32(Header(disk), at) == w
  {
    Reads4(Header(disk), at, w);
  }

  lemma Field2(disk: Disk, at: nat, w: uint16)
    requires at + 2 <= 4096 && Holds2(disk, 512 + at, w)
    ensures Le16(Header(disk), at) == w
  {
    assert w == w / 0x100 * 0x100 + w % 0x100;
  }

  /** The magic number is these four bytes and no others. */
  lemma MagicIff(disk: Disk)
    ensures Le32(Header(disk), 0) == ELF_MAGIC <==> IsElf(disk)
  {
    var h := Header(disk);
    assert h[0] == disk(512) && h[1] == disk(513) && h[2] == disk(514) && h[3] == disk(515);
  }

  lemma SegmentsAre(disk: Disk, entry: uint32, phoff: uint32, segments: seq<Proghdr>)
    requires Describes(disk, entry, phoff, segments)
    ensures var h := Header(disk);
      && TableFits(h) && PhNum(h) == |segments| && Le32(h, 24) == entry
      && forall i :: 0 <= i < |segments| ==> Segment(h, i) == segments[i]
  {
    hide Le32, Le16, Holds4, Holds2;
    Field4(disk, 24, entry);
    Field4(disk, 28, phoff);
    Field2(disk, 44, |segments|);
    forall i | 0 <= i < |segments| ensures Segment(Header(disk), i) == segments[i] {
      var at := phoff + 32 * i;
      assert HasHeaderFor(disk, at, segments[i]);
      Field4(disk, at + 4, segments[i].offset);
      Field4(disk, at + 12, segments[i].pa);
      Field4(disk, at + 16, segments[i].filesz);
      Field4(disk, at + 20, segments[i].memsz);
    }
  }

  lemma AlignedIsPlaced(s: Proghdr)
    requires Aligned(s)
    ensures Placed(s) && RoundDown(s.pa) == s.pa / 512 * 512
    ensures forall a :: Covers(s, a) ==> s.pa / 512 * 512 <= a < (s.pa + s.memsz + 511) / 512 * 512
  {
  }

  lemma OrderedIsWellFormed(disk: Disk, entry: uint32, phoff: uint32, segments: seq<Proghdr>)
    requires Describes(disk, entry, phoff, segments) && Ordered(segments)
    ensures WellFormed(Header(disk))
  {
    hide Segment, Placed, RoundDown, Aligned;
    SegmentsAre(disk, entry, phoff, segments);
    forall i | 0 <= i < |segments| ensures Placed(segments[i]) && RoundDown(segments[i].pa) == segments[i].pa / 512 * 512 {
      AlignedIsPlaced(segments[i]);
    }
  }

  /** An address in none of the sectors and not in the header page. */
  ghost predicate Outside(segments: seq<Proghdr>, a: nat) {
    && !(0x1_0000 <= a < 0x1_1000)
    && forall i :: 0 <= i < |segments| ==>
      !(segments[i].pa / 512 * 512 <= a < (segments[i].pa + segments[i].memsz + 511) / 512 * 512)
  }

  lemma OutsideIsUntouched(disk: Disk, entry: uint32, phoff: uint32, segments: seq<Proghdr>, a: nat)
    requires Describes(disk, entry, phoff, segments) && Ordered(segments) && Outside(segments, a)
    ensures TableFits(Header(disk)) && Position(Header(disk), PhNum(Header(disk)), a) == -1
  {
    hide Segment, Covers, Aligned;
    SegmentsAre(disk, entry, phoff, segments);
    forall i | 0 <= i < |segments| ensures !Covers(segments[i], a) {
      AlignedIsPlaced(segments[i]);
    }
    var i := LastCover(Header(disk), |segments|, a);
    assert i == -1;
  }

  // ---------- The run ----------

  /** The segment is in memory as it is on the disk, where the image starts at the second sector. */
  ghost predicate IsCopied(m: seq<byte>, disk: Disk, s: Proghdr) {
    s.pa + s.memsz <= |m| && forall a :: s.pa <= a < s.pa + s.memsz ==> m[a] == disk(512 + s.offset + (a - s.pa))
  }

  /** bootmain on an image without the magic number */
  method BootOther(mem: array<byte>, disk: Disk) returns (out: Outcome)
    requires mem.Length == 0x1_0000_0000 && !IsElf(disk)
    modifies mem
    ensures out == Bad
    ensures forall a :: 0 <= a < mem.Length && !(0x1_0000 <= a < 0x1_1000) ==> mem[a] == old(mem[a])
  {
    MagicIff(disk);
    out := BootMain(mem, disk);
  }

  /** bootmain on an ELF image: every segment is copied from its file offset, counted from the second sector, and the
      loader jumps to the entry point. */
  method BootElf(mem: array<byte>, disk: Disk, ghost entry: uint32, ghost phoff: uint32, ghost segments: seq<Proghdr>)
    returns (out: Outcome)
    requires mem.Length == 0x1_0000_0000 && IsElf(disk) && Describes(disk, entry, phoff, segments) && Ordered(segments)
    modifies mem
    ensures out == Jump(entry)
    ensures forall i :: 0 <= i < |segments| ==> IsCopied(mem[..], disk, segments[i])
    ensures forall a :: 0 <= a < mem.Length && Outside(segments, a) ==> mem[a] == old(mem[a])
  {
    hide Describes, Ordered, WellFormed, Readable, Segment, Position, HasBytes, Outside, IsCopied;
    ghost var h, before := Header(disk), mem[..];
    MagicIff(disk);
    OrderedIsWellFormed(disk, entry, phoff, segments);
    WellFormedIsReadable(h);
    SegmentsAre(disk, entry, phoff, segments);
    out := BootMain(mem, disk);
    forall i | 0 <= i < |segments| ensures IsCopied(mem[..], disk, segments[i]) {
      WellFormedIsInPlace(h, i);
      InPlaceIsLoaded(before, disk, i, segments[i].memsz);
      BytesAreCopied(mem[..], disk, segments[i]);
    }
    forall a | 0 <= a < mem.Length && Outside(segments, a) ensures mem[a] == before[a] {
      OutsideIsUntouched(disk, entry, phoff, segments, a);
      assert mem[..][a] == LoadedByte(before, disk, h, PhNum(h), a);
    }
  }

  lemma BytesAreCopied(m: seq<byte>, disk: Disk, s: Proghdr)
    requires HasBytes(m, disk, s, s.memsz)
    ensures IsCopied(m, disk, s)
  {
  }
}
