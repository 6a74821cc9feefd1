/** The boot loader's segment loop (boot/main.c). Memory has 2^32 bytes; a disk yields a byte for every position. */
module Boot {
  import opened CTypes

  const SECTSIZE := 512
  const ELFHDR := 0x10000
  const PAGE := 4096
  const ELF_MAGIC := 0x464C457F
  const ADDRESSES := 0x1_0000_0000

  type Disk = nat -> byte

  /** The kernel image starts at the second sector. */
  function Image(disk: Disk, k: nat): byte { disk(SECTSIZE + k) }

  function RoundDown(a: nat): nat { a - a % SECTSIZE }

  function RoundUp(a: nat): nat { RoundDown(a + SECTSIZE - 1) }

  // ---------- Reading sectors ----------

  /** The bytes of [lo, hi) are those of the image from 'from' on; nothing else has changed. */
  ghost predicate Copied(before: seq<byte>, after: seq<byte>, disk: Disk, lo: nat, hi: nat, from: nat) {
    && |after| == |before| && hi <= |before|
    && (forall k :: lo <= k < hi ==> after[k] == Image(disk, from + (k - lo)))
    && (forall k :: 0 <= k < |before| && !(lo <= k < hi) ==> after[k] == before[k])
  }

  /** readsect, as a copy of 512 bytes */
  method ReadSect(mem: array<byte>, dst: nat, sector: nat, disk: Disk)
    requires dst + SECTSIZE <= mem.Length && sector >= 1
    modifies mem
    ensures Copied(old(mem[..]), mem[..], disk, dst, dst + SECTSIZE, (sector - 1) * SECTSIZE)
  {
    ghost var m := mem[..];
    for i := 0 to SECTSIZE
      invariant Copied(m, mem[..], disk, dst, dst + i, (sector - 1) * SECTSIZE)
    {
      mem[dst + i] := disk(sector * SECTSIZE + i);
    }
  }

  lemma CopiedTwice(m: seq<byte>, m1: seq<byte>, m2: seq<byte>, disk: Disk, lo: nat, mid: nat, hi: nat, from: nat)
    requires lo <= mid <= hi
    requires Copied(m, m1, disk, lo, mid, from) && Copied(m1, m2, disk, mid, hi, from + (mid - lo))
    ensures Copied(m, m2, disk, lo, hi, from)
  {
  }

  /** The end of a segment, as readseg computes it. */
  function End(pa: uint32, count: uint32): uint32 { (pa + count) % ADDRESSES }

  /** The end of the sectors that readseg writes. */
  function SectorsEnd(pa: uint32, count: uint32): nat {
    Max(RoundDown(pa), RoundUp(End(pa, count)))
  }

  lemma RoundDownIs(a: nat)
    ensures RoundDown(a) == a - a % SECTSIZE == a / SECTSIZE * SECTSIZE && RoundDown(a) % SECTSIZE == 0
    ensures RoundDown(a) <= a < RoundDown(a) + SECTSIZE
  {
  }

  lemma RoundUpIs(a: nat)
    ensures RoundUp(a) % SECTSIZE == 0 && a <= RoundUp(a) < a + SECTSIZE
  {
  }

  /** There is room for the sector at pa below the end rounded up. */
  lemma SectorFits(pa: nat, endPa: nat)
    requires pa % SECTSIZE == 0 && pa < endPa
    ensures pa + SECTSIZE <= RoundUp(endPa) && (pa + SECTSIZE) % SECTSIZE == 0
  {
    RoundUpIs(endPa);
  }

  /** Where the loop of readseg starts and ends. */
  lemma SectorRange(pa: uint32, count: uint32, offset: uint32)
    requires End(pa, count) <= ADDRESSES - SECTSIZE
    ensures RoundDown(pa) == pa - pa % SECTSIZE && RoundDown(pa) % SECTSIZE == 0
    ensures RoundDown(offset) == offset / SECTSIZE * SECTSIZE
    ensures RoundDown(pa) <= SectorsEnd(pa, count) <= ADDRESSES
    ensures RoundUp(End(pa, count)) <= SectorsEnd(pa, count)
    ensures RoundDown(pa) < End(pa, count) ==> SectorsEnd(pa, count) == RoundUp(End(pa, count))
    ensures End(pa, count) <= RoundDown(pa) ==> SectorsEnd(pa, count) == RoundDown(pa)
    ensures End(pa, count) <= RoundUp(End(pa, count))
  {
    RoundDownIs(pa);
    RoundUpIs(End(pa, count));
  }

  lemma SectorsEndAt(pa: nat, endPa: nat)
    requires pa % SECTSIZE == 0 && endPa <= pa <= RoundUp(endPa)
    ensures pa == RoundUp(endPa)
  {
    RoundUpIs(endPa);
  }

  /** The address of readseg's loop after n turns. */
  function PaAfter(pa: uint32, n: nat): uint32
    decreases n
  {
    if n == 0 then pa else PaAfter((pa + SECTSIZE) % ADDRESSES, n - 1)
  }

  /** The loop of readseg reaches its end. */
  ghost predicate Ends(pa: uint32, endPa: uint32) {
    exists n: nat :: PaAfter(pa, n) >= endPa
  }

  lemma {:induction false} TurnsToEnd(pa: uint32, endPa: uint32) returns (n: nat)
    requires endPa <= ADDRESSES - SECTSIZE
    ensures PaAfter(pa, n) >= endPa
    decreases endPa - pa
  {
    if pa >= endPa {
      n := 0;
    } else {
      n := TurnsToEnd(pa + SECTSIZE, endPa);
      n := n + 1;
    }
  }

  lemma {:induction false} NeverEnds(pa: uint32, endPa: uint32, n: nat)
    requires pa % SECTSIZE == 0 && endPa > ADDRESSES - SECTSIZE
    ensures PaAfter(pa, n) < endPa
    decreases n
  {
    if n > 0 { NeverEnds((pa + SECTSIZE) % ADDRESSES, endPa, n - 1); }
  }

  /** The loop of readseg ends if and only if the segment does not end in the last sector of the address space: from
      that sector the address wraps to 0, below the end again. */
  lemma ReadSegEndsIff(pa: uint32, count: uint32)
    ensures Ends(RoundDown(pa), End(pa, count)) <==> End(pa, count) <= ADDRESSES - SECTSIZE
  {
    RoundDownIs(pa);
    hide PaAfter, RoundDown, End;
    var start, endPa := RoundDown(pa), End(pa, count);
    if endPa <= ADDRESSES - SECTSIZE {
      var n := TurnsToEnd(start, endPa);
    } else {
      forall n: nat ensures PaAfter(start, n) < endPa {
        NeverEnds(start, endPa, n);
      }
    }
  }

  /** readseg, for the segments on which its loop ends (see ReadSegEndsIff) */
  method ReadSeg(mem: array<byte>, pa0: uint32, count: uint32, offset0: uint32, disk: Disk)
    requires mem.Length == ADDRESSES && End(pa0, count) <= ADDRESSES - SECTSIZE
    modifies mem
    ensures Copied(old(mem[..]), mem[..], disk, RoundDown(pa0), SectorsEnd(pa0, count), RoundDown(offset0))
  {
    hide Copied, RoundDown, RoundUp, SectorsEnd;
    SectorRange(pa0, count, offset0);
    ghost var m, start, image := mem[..], RoundDown(pa0), RoundDown(offset0);
    var endPa := (pa0 + count) % ADDRESSES;
    var pa := pa0 - pa0 % SECTSIZE;
    var offset := offset0 / SECTSIZE + 1;
    CopiedNone(m, disk, pa, image);
    while pa < endPa
      invariant start <= pa <= SectorsEnd(pa0, count) && pa % SECTSIZE == 0
      invariant (offset - 1) * SECTSIZE == image + (pa - start)
      invariant Copied(m, mem[..], disk, start, pa, image)
      decreases endPa - pa
    {
      ghost var m1 := mem[..];
      SectorFits(pa, endPa);
      ReadSect(mem, pa, offset, disk);
      CopiedTwice(m, m1, mem[..], disk, start, pa, pa + SECTSIZE, image);
      pa := pa + SECTSIZE;
      offset := offset + 1;
    }
    if start < endPa { SectorsEndAt(pa, endPa); }
  }

  lemma CopiedNone(m: seq<byte>, disk: Disk, lo: nat, from: nat)
    requires lo <= |m|
    ensures Copied(m, m, disk, lo, lo, from)
  {
  }

  // ---------- The ELF headers (inc/elf.h), little endian ----------

  function Le16(m: seq<byte>, a: nat): uint16
    requires a + 2 <= |m|
  {
    m[a] as int + 0x100 * m[a + 1] as int
  }

  function Le32(m: seq<byte>, a: nat): uint32
    requires a + 4 <= |m|
  {
    m[a] as int + 0x100 * m[a + 1] as int + 0x1_0000 * m[a + 2] as int + 0x100_0000 * m[a + 3] as int
  }

  /** The fields of struct Proghdr that the loader and the BSS clear rely on. */
  datatype Proghdr = Proghdr(offset: uint32, pa: uint32, filesz: uint32, memsz: uint32)

  /** The program header at a position of the header page. */
  function HeaderAt(h: seq<byte>, at: nat): Proghdr
    requires at + 32 <= |h|
  {
    Proghdr(Le32(h, at + 4), Le32(h, at + 12), Le32(h, at + 16), Le32(h, at + 20))
  }

  function PhOff(h: seq<byte>): uint32
    requires |h| == PAGE
  {
    Le32(h, 28)
  }

  function PhNum(h: seq<byte>): uint16
    requires |h| == PAGE
  {
    Le16(h, 44)
  }

  /** The header table fits in the header page. */
  predicate TableFits(h: seq<byte>) {
    |h| == PAGE && PhOff(h) + 32 * PhNum(h) <= PAGE
  }

  function Segment(h: seq<byte>, i: nat): Proghdr
    requires TableFits(h) && i < PhNum(h)
  {
    HeaderAt(h, PhOff(h) + 32 * i)
  }

  /** Addresses in the sectors that a segment is read into. */
  predicate Covers(s: Proghdr, a: int) {
    RoundDown(s.pa) <= a < SectorsEnd(s.pa, s.memsz)
  }

  /** The first page of the image. */
  function Header(disk: Disk): seq<byte> { seq(PAGE, k requires 0 <= k => Image(disk, k)) }

  ghost predicate HasHeader(m: seq<byte>, h: seq<byte>) {
    |m| == ADDRESSES && m[ELFHDR..ELFHDR + PAGE] == h
  }

  /** The first n bytes of a segment are in memory. */
  ghost predicate HasBytes(m: seq<byte>, disk: Disk, s: Proghdr, n: nat) {
    s.pa + n <= |m| && forall a :: s.pa <= a < s.pa + n ==> m[a] == Image(disk, s.offset + (a - s.pa))
  }

  // ---------- Memory after the reads ----------

  /** The last of the first k segments whose sectors hold an address; -1 if there is none. */
  function LastCover(h: seq<byte>, k: nat, a: nat): (i: int)
    requires TableFits(h) && k <= PhNum(h)
    ensures -1 <= i < k && (i >= 0 ==> Covers(Segment(h, i), a))
    ensures forall j :: i < j < k ==> !Covers(Segment(h, j), a)
  {
    if k == 0 then -1 else if Covers(Segment(h, k - 1), a) then k - 1 else LastCover(h, k - 1, a)
  }

  /** The position of the image that the loader reads last to an address, after the header page and k segments;
      -1 if it reads nothing there. */
  function Position(h: seq<byte>, k: nat, a: nat): (p: int)
    requires TableFits(h) && k <= PhNum(h)
    ensures p >= -1
  {
    var i := LastCover(h, k, a);
    if i >= 0 then RoundDown(Segment(h, i).offset) + (a - RoundDown(Segment(h, i).pa))
    else if ELFHDR <= a < ELFHDR + PAGE then a - ELFHDR
    else -1
  }

  function LoadedByte(before: seq<byte>, disk: Disk, h: seq<byte>, k: nat, a: nat): byte
    requires TableFits(h) && k <= PhNum(h) && a < |before|
  {
    if Position(h, k, a) >= 0 then Image(disk, Position(h, k, a)) else before[a]
  }

  function LoadedMemory(before: seq<byte>, disk: Disk, h: seq<byte>, k: nat): seq<byte>
    requires TableFits(h) && k <= PhNum(h)
  {
    seq(|before|, a requires 0 <= a < |before| => LoadedByte(before, disk, h, k, a))
  }

  /** One more read. */
  lemma LoadStep(before: seq<byte>, m1: seq<byte>, disk: Disk, h: seq<byte>, k: nat)
    requires TableFits(h) && k < PhNum(h)
    requires var s := Segment(h, k);
      Copied(LoadedMemory(before, disk, h, k), m1, disk, RoundDown(s.pa), SectorsEnd(s.pa, s.memsz), RoundDown(s.offset))
    ensures m1 == LoadedMemory(before, disk, h, k + 1)
  {
    hide Segment, RoundDown, SectorsEnd, Image;
    var m := LoadedMemory(before, disk, h, k);
    forall a | 0 <= a < |before| ensures m1[a] == LoadedByte(before, disk, h, k + 1, a) {
      assert m[a] == LoadedByte(before, disk, h, k, a);
    }
  }

  // ---------- Which layouts are loaded ----------

  /** The image has the same byte at two positions, because they are the same or because its header page says so. */
  predicate SameByte(h: seq<byte>, p: int, q: nat)
    requires |h| == PAGE
  {
    p == q || (0 <= p < PAGE && q < PAGE && h[p] == h[q])
  }

  /** What the loader relies on: the loop of readseg ends, and no sector read so far has put other bytes into the header
      fields that it is about to read: offset, pa and memsz of the next segment, and in the end the entry point. */
  ghost predicate Readable(h: seq<byte>) {
    && TableFits(h)
    && (forall k :: 0 <= k < PhNum(h) ==> SegmentReadable(h, k))
    && FieldInPlace(h, PhNum(h), 24)
  }

  ghost predicate SegmentReadable(h: seq<byte>, k: nat)
    requires TableFits(h) && k < PhNum(h)
  {
    var s, at := Segment(h, k), PhOff(h) + 32 * k;
    && End(s.pa, s.memsz) <= ADDRESSES - SECTSIZE
    && FieldInPlace(h, k, at + 4) && FieldInPlace(h, k, at + 12) && FieldInPlace(h, k, at + 20)
  }

  /** The four bytes at a position of the header page are there after k segments. */
  ghost predicate FieldInPlace(h: seq<byte>, k: nat, at: nat)
    requires TableFits(h) && k <= PhNum(h)
  {
    forall a :: ELFHDR + at <= a < ELFHDR + at + 4 ==> SameByte(h, Position(h, k, a), a - ELFHDR)
  }

  /** At each of the first n bytes of a segment, the last read puts the segment's own byte. */
  ghost predicate InPlace(h: seq<byte>, i: nat, n: nat)
    requires TableFits(h) && i < PhNum(h)
  {
    var s := Segment(h, i);
    s.pa + n <= ADDRESSES
    && forall a :: s.pa <= a < s.pa + n ==> SameByte(h, Position(h, PhNum(h), a), s.offset + (a - s.pa))
  }

  /** Whatever else the image contains and whatever was in memory, the first n bytes of a segment are in memory after
      all reads. */
  ghost predicate IsLoaded(h: seq<byte>, i: nat, n: nat)
    requires TableFits(h) && i < PhNum(h)
  {
    forall disk: Disk, before: seq<byte> :: |before| == ADDRESSES && Header(disk) == h ==>
      HasBytes(LoadedMemory(before, disk, h, PhNum(h)), disk, Segment(h, i), n)
  }

  /** A disk with header page h and one marked byte beyond it. */
  function TestDisk(h: seq<byte>, mark: nat, b: byte): Disk
    requires |h| == PAGE
  {
    k => if SECTSIZE <= k < SECTSIZE + PAGE then h[k - SECTSIZE] else if k == SECTSIZE + mark then b else 0
  }

  lemma TellApart(h: seq<byte>, p: nat, q: nat) returns (disk: Disk)
    requires |h| == PAGE && !SameByte(h, p, q)
    ensures Header(disk) == h && Image(disk, p) != Image(disk, q)
  {
    if q >= PAGE {
      disk := TestDisk(h, q, if p < PAGE && h[p] == 1 then 2 else 1);
    } else {
      disk := TestDisk(h, p, if h[q] == 1 then 2 else 1);
    }
  }

  lemma SameByteMeans(disk: Disk, p: int, q: nat)
    requires SameByte(Header(disk), p, q)
    ensures p >= 0 && Image(disk, p) == Image(disk, q)
  {
    var h := Header(disk);
    assert p < PAGE ==> h[p] == Image(disk, p);
    assert q < PAGE ==> h[q] == Image(disk, q);
  }

  lemma InPlaceIsLoaded(before: seq<byte>, disk: Disk, i: nat, n: nat)
    requires TableFits(Header(disk)) && i < PhNum(Header(disk)) && InPlace(Header(disk), i, n) && |before| == ADDRESSES
    ensures HasBytes(LoadedMemory(before, disk, Header(disk), PhNum(Header(disk))), disk, Segment(Header(disk), i), n)
  {
    hide Position, SameByte, Segment, Image;
    var h := Header(disk);
    var s := Segment(h, i);
    forall a | s.pa <= a < s.pa + n
      ensures LoadedByte(before, disk, h, PhNum(h), a) == Image(disk, s.offset + (a - s.pa))
    {
      SameByteMeans(disk, Position(h, PhNum(h), a), s.offset + (a - s.pa));
    }
  }

  /** One byte of the segment that is wrong. */
  lemma WrongByte(before: seq<byte>, disk: Disk, h: seq<byte>, i: nat, n: nat, a: nat)
    requires TableFits(h) && i < PhNum(h) && |before| == ADDRESSES && Header(disk) == h
    requires Segment(h, i).pa <= a < Segment(h, i).pa + n && a < ADDRESSES
    requires LoadedByte(before, disk, h, PhNum(h), a) != Image(disk, Segment(h, i).offset + (a - Segment(h, i).pa))
    ensures !IsLoaded(h, i, n)
  {
    hide LoadedByte, Segment, Image;
    assert LoadedMemory(before, disk, h, PhNum(h))[a] == LoadedByte(before, disk, h, PhNum(h), a);
  }

  lemma NotInPlaceIsNotLoaded(h: seq<byte>, i: nat, n: nat)
    requires TableFits(h) && i < PhNum(h) && !InPlace(h, i, n)
    ensures !IsLoaded(h, i, n)
  {
    hide Position, Segment, SameByte;
    var s := Segment(h, i);
    var disk := TestDisk(h, 0, 0);
    var before: seq<byte> := seq(ADDRESSES, _ => 0);
    if s.pa + n <= ADDRESSES {
      hide IsLoaded;
      var a :| s.pa <= a < s.pa + n && !SameByte(h, Position(h, PhNum(h), a), s.offset + (a - s.pa));
      var p, q := Position(h, PhNum(h), a), s.offset + (a - s.pa);
      if p >= 0 {
        disk := TellApart(h, p, q);
      } else if Image(disk, q) == 0 {
        before := seq(ADDRESSES, _ => 1);
      }
      WrongByte(before, disk, h, i, n, a);
    } else {
      assert Header(disk) == h;
      assert !HasBytes(LoadedMemory(before, disk, h, PhNum(h)), disk, s, n);
    }
  }

  /** A segment is loaded from every image with the header page h if and only if the last read of each of its bytes
      reads that byte. */
  lemma InPlaceIff(h: seq<byte>, i: nat, n: nat)
    requires TableFits(h) && i < PhNum(h)
    ensures IsLoaded(h, i, n) <==> InPlace(h, i, n)
  {
    hide InPlace, HasBytes, LoadedMemory, Segment;
    if InPlace(h, i, n) {
      forall disk: Disk, before: seq<byte> | |before| == ADDRESSES && Header(disk) == h
        ensures HasBytes(LoadedMemory(before, disk, h, PhNum(h)), disk, Segment(h, i), n)
      {
        InPlaceIsLoaded(before, disk, i, n);
      }
    } else {
      NotInPlaceIsNotLoaded(h, i, n);
    }
  }

  // ---------- Increasing order ----------

  /** A segment whose sectors line up with its file offset, stay below the last sector and away from the header page. */
  predicate Placed(s: Proghdr) {
    && s.pa + s.memsz <= ADDRESSES - SECTSIZE
    && s.pa % SECTSIZE == s.offset % SECTSIZE
    && (SectorsEnd(s.pa, s.memsz) <= ELFHDR || ELFHDR + PAGE <= RoundDown(s.pa))
  }

  /** Segments are in increasing order: the sectors of a later one start after the end of an earlier one. */
  ghost predicate WellFormed(h: seq<byte>) {
    && TableFits(h)
    && (forall i :: 0 <= i < PhNum(h) ==> Placed(Segment(h, i)))
    && forall i, j :: 0 <= i < j < PhNum(h) ==> Segment(h, i).pa + Segment(h, i).memsz <= RoundDown(Segment(h, j).pa)
  }

  lemma PlacedPosition(s: Proghdr, a: nat)
    requires Placed(s) && s.pa <= a < s.pa + s.memsz
    ensures Covers(s, a) && RoundDown(s.offset) + (a - RoundDown(s.pa)) == s.offset + (a - s.pa)
  {
  }

  lemma PlacedFits(s: Proghdr)
    requires Placed(s)
    ensures s.pa + s.memsz <= ADDRESSES && End(s.pa, s.memsz) <= ADDRESSES - SECTSIZE
  {
  }

  lemma PlacedOutside(s: Proghdr, a: nat)
    requires Placed(s) && ELFHDR <= a < ELFHDR + PAGE
    ensures !Covers(s, a)
  {
  }

  lemma HeaderUntouched(h: seq<byte>, k: nat, at: nat)
    requires WellFormed(h) && k <= PhNum(h) && at + 4 <= PAGE
    ensures FieldInPlace(h, k, at)
  {
    hide Segment, Placed, Covers;
    forall a, i | 0 <= i < k && ELFHDR <= a < ELFHDR + PAGE ensures !Covers(Segment(h, i), a) {
      PlacedOutside(Segment(h, i), a);
    }
  }

  lemma WellFormedIsReadable(h: seq<byte>)
    requires WellFormed(h)
    ensures Readable(h)
  {
    hide Segment, FieldInPlace, Placed, End;
    forall k | 0 <= k < PhNum(h) ensures SegmentReadable(h, k) {
      PlacedFits(Segment(h, k));
      var at := PhOff(h) + 32 * k;
      HeaderUntouched(h, k, at + 4);
      HeaderUntouched(h, k, at + 12);
      HeaderUntouched(h, k, at + 20);
    }
    HeaderUntouched(h, PhNum(h), 24);
  }

  lemma OwnReadIsLast(h: seq<byte>, i: nat, a: nat)
    requires WellFormed(h) && i < PhNum(h) && Segment(h, i).pa <= a < Segment(h, i).pa + Segment(h, i).memsz
    ensures Position(h, PhNum(h), a) == Segment(h, i).offset + (a - Segment(h, i).pa)
  {
    assert Placed(Segment(h, i));
    hide Segment, Covers, RoundDown, WellFormed, Placed;
    PlacedPosition(Segment(h, i), a);
    LaterStarts(h, i, a);
    assert LastCover(h, PhNum(h), a) == i;
  }

  /** This is enough, although reads overrun. */
  lemma WellFormedIsInPlace(h: seq<byte>, i: nat)
    requires WellFormed(h) && i < PhNum(h)
    ensures InPlace(h, i, Segment(h, i).memsz)
  {
    var s := Segment(h, i);
    PlacedFits(s);
    hide Segment, Position;
    forall a | s.pa <= a < s.pa + s.memsz
      ensures SameByte(h, Position(h, PhNum(h), a), s.offset + (a - s.pa))
    {
      OwnReadIsLast(h, i, a);
    }
  }

  lemma LaterStarts(h: seq<byte>, i: nat, a: nat)
    requires WellFormed(h) && i < PhNum(h) && a < Segment(h, i).pa + Segment(h, i).memsz
    ensures forall j :: i < j < PhNum(h) ==> !Covers(Segment(h, j), a)
  {
    hide Segment;
  }

  // ---------- Two segments ----------

  /** A segment and the sectors of another one have an address in common. */
  predicate Meets(s: Proghdr, t: Proghdr) {
    Max(s.pa, RoundDown(t.pa)) < Min(s.pa + s.memsz, SectorsEnd(t.pa, t.memsz))
  }

  /** Whatever the image contains, the read of t leaves s as it is if it was in memory. */
  ghost predicate Keeps(t: Proghdr, s: Proghdr) {
    forall disk: Disk, m: seq<byte>, m1: seq<byte> ::
      && |m| == ADDRESSES && HasBytes(m, disk, s, s.memsz)
      && Copied(m, m1, disk, RoundDown(t.pa), SectorsEnd(t.pa, t.memsz), RoundDown(t.offset))
      ==> HasBytes(m1, disk, s, s.memsz)
  }

  function OverlaidByte(m: seq<byte>, disk: Disk, lo: nat, hi: nat, from: nat, a: nat): byte
    requires a < |m|
  {
    if lo <= a < hi then Image(disk, from + (a - lo)) else m[a]
  }

  /** Memory after a read. */
  function Overlaid(m: seq<byte>, disk: Disk, lo: nat, hi: nat, from: nat): (m1: seq<byte>)
    requires hi <= |m|
    ensures Copied(m, m1, disk, lo, hi, from)
  {
    seq(|m|, a requires 0 <= a < |m| => OverlaidByte(m, disk, lo, hi, from, a))
  }

  lemma MeetingDestroys(t: Proghdr, s: Proghdr)
    requires s.pa + s.memsz <= ADDRESSES && End(t.pa, t.memsz) <= ADDRESSES - SECTSIZE && Meets(s, t)
    requires s.pa - s.offset != RoundDown(t.pa) - RoundDown(t.offset)
    ensures !Keeps(t, s)
  {
    SectorRange(t.pa, t.memsz, t.offset);
    var start, end, from := RoundDown(t.pa), SectorsEnd(t.pa, t.memsz), RoundDown(t.offset);
    hide RoundDown, SectorsEnd;
    var a := Max(s.pa, start);
    var p := s.offset + (a - s.pa);
    var disk: Disk := k => if k == SECTSIZE + p then 1 else 0;
    var m := Overlaid(seq(ADDRESSES, _ => 0), disk, s.pa, s.pa + s.memsz, s.offset);
    var m1 := Overlaid(m, disk, start, end, from);
    assert HasBytes(m, disk, s, s.memsz);
    assert m1[a] == Image(disk, from + (a - start)) == 0 && Image(disk, p) == 1;
  }

  /** A later read keeps a segment on every disk exactly if its sectors do not meet the segment or both put every byte
      of the image at the same place. */
  lemma ReadKeepsIff(t: Proghdr, s: Proghdr)
    requires s.pa + s.memsz <= ADDRESSES && End(t.pa, t.memsz) <= ADDRESSES - SECTSIZE
    ensures Keeps(t, s) <==> (Meets(s, t) ==> s.pa - s.offset == RoundDown(t.pa) - RoundDown(t.offset))
  {
    hide RoundDown, SectorsEnd, Image;
    if Meets(s, t) && s.pa - s.offset != RoundDown(t.pa) - RoundDown(t.offset) {
      MeetingDestroys(t, s);
    }
  }

  /** Increasing order alone is not enough: the sector at 0x100200 is needed by the end of s and by the start of t, and t,
      read last, puts there what its own file offset says. With t at the next file offset the same overrun is harmless,
      although the sectors still meet. */
  lemma SharedSector(s: Proghdr, t: Proghdr)
    requires s == Proghdr(0x1000, 0x10_0000, 0x300, 0x300) && t.pa == 0x10_0300 && t.memsz == 0x400
    ensures t.offset == 0x2100 ==> Placed(s) && Placed(t) && s.pa + s.memsz <= t.pa && !Keeps(t, s)
    ensures t.offset == 0x1300 ==> Placed(s) && Placed(t) && Meets(s, t) && Keeps(t, s)
  {
    if t.offset == 0x2100 || t.offset == 0x1300 { ReadKeepsIff(t, s); }
  }

  // ---------- bootmain ----------

  /** A 32-bit load. */
  method Load32(mem: array<byte>, a: nat) returns (w: uint32)
    requires a + 4 <= mem.Length
    ensures w == Le32(mem[..], a)
  {
    w := mem[a] as int + 0x100 * mem[a + 1] as int + 0x1_0000 * mem[a + 2] as int + 0x100_0000 * mem[a + 3] as int;
  }

  /** Headers are read through the header page. */
  lemma HeaderInMemory(m: seq<byte>, h: seq<byte>, a: nat)
    requires HasHeader(m, h) && |h| == PAGE
    ensures a + 4 <= PAGE ==> Le32(m, ELFHDR + a) == Le32(h, a)
    ensures a + 2 <= PAGE ==> Le16(m, ELFHDR + a) == Le16(h, a)
  {
    var page := m[ELFHDR..ELFHDR + PAGE];
    assert forall k :: 0 <= k < PAGE ==> page[k] == m[ELFHDR + k];
  }

  /** How bootmain ends: it jumps to the entry point, or it stops. */
  datatype Outcome = Jump(entry: uint32) | Bad

  /** bootmain. The memory is that of LoadedMemory, so that segments that are in place by the layout are loaded. */
  method BootMain(mem: array<byte>, disk: Disk) returns (out: Outcome)
    requires mem.Length == ADDRESSES
    requires Le32(Header(disk), 0) == ELF_MAGIC ==> Readable(Header(disk))
    modifies mem
    ensures if Le32(Header(disk), 0) == ELF_MAGIC
      then out == Jump(Le32(Header(disk), 24))
           && mem[..] == LoadedMemory(old(mem[..]), disk, Header(disk), PhNum(Header(disk)))
      else out == Bad && HasHeader(mem[..], Header(disk))
           && forall a :: 0 <= a < ADDRESSES && !(ELFHDR <= a < ELFHDR + PAGE) ==> mem[a] == old(mem[a])
  {
    hide Readable, SegmentReadable, FieldInPlace, LoadedMemory, Segment, Le32, Le16, HasHeader;
    ghost var h, before := Header(disk), mem[..];
    ReadSeg(mem, ELFHDR, SECTSIZE * 8, 0, disk);
    HeaderRead(before, mem[..], disk);
    HeaderInMemory(mem[..], h, 0);
    var magic := Load32(mem, ELFHDR);
    if magic != ELF_MAGIC {
      return Bad;
    }
    ReadableMeans(h);
    HeaderInMemory(mem[..], h, 28);
    HeaderInMemory(mem[..], h, 44);
    var phoff := Load32(mem, ELFHDR + 28);
    var phnum := Load16(mem, ELFHDR + 44);
    var ph := ELFHDR + phoff;
    var eph := ph + 32 * phnum;
    ghost var k := 0;
    while ph < eph
      invariant 0 <= k <= PhNum(h) && ph == ELFHDR + PhOff(h) + 32 * k
      invariant mem[..] == LoadedMemory(before, disk, h, k)
      decreases eph - ph
    {
      SegmentInMemory(before, disk, k);
      var pa := Load32(mem, ph + 12);
      var memsz := Load32(mem, ph + 20);
      var offset := Load32(mem, ph + 4);
      ReadSeg(mem, pa, memsz, offset, disk);
      LoadStep(before, mem[..], disk, h, k);
      ph := ph + 32;
      k := k + 1;
    }
    FieldStays(before, disk, k, 24);
    var entry := Load32(mem, ELFHDR + 24);
    return Jump(entry);
  }

  method Load16(mem: array<byte>, a: nat) returns (w: uint16)
    requires a + 2 <= mem.Length
    ensures w == Le16(mem[..], a)
  {
    w := mem[a] as int + 0x100 * mem[a + 1] as int;
  }

  lemma ReadableMeans(h: seq<byte>)
    requires Readable(h)
    ensures TableFits(h) && FieldInPlace(h, PhNum(h), 24)
    ensures forall k :: 0 <= k < PhNum(h) ==> SegmentReadable(h, k)
  {
  }

  /** The header page is read as a whole number of sectors. */
  lemma HeaderRead(before: seq<byte>, m: seq<byte>, disk: Disk)
    requires |before| == ADDRESSES
    requires Copied(before, m, disk, RoundDown(ELFHDR), SectorsEnd(ELFHDR, SECTSIZE * 8), RoundDown(0))
    ensures HasHeader(m, Header(disk))
    ensures forall a :: 0 <= a < ADDRESSES && !(ELFHDR <= a < ELFHDR + PAGE) ==> m[a] == before[a]
    ensures TableFits(Header(disk)) ==> m == LoadedMemory(before, disk, Header(disk), 0)
  {
    assert RoundDown(ELFHDR) == ELFHDR && SectorsEnd(ELFHDR, SECTSIZE * 8) == ELFHDR + PAGE;
  }

  /** A field that is in place is read from memory as it is in the image. */
  lemma FieldStays(before: seq<byte>, disk: Disk, k: nat, at: nat)
    requires |before| == ADDRESSES && TableFits(Header(disk)) && k <= PhNum(Header(disk)) && at + 4 <= PAGE
    requires FieldInPlace(Header(disk), k, at)
    ensures Le32(LoadedMemory(before, disk, Header(disk), k), ELFHDR + at) == Le32(Header(disk), at)
  {
    hide Position, SameByte, Image;
    var h := Header(disk);
    forall a | ELFHDR + at <= a < ELFHDR + at + 4 ensures LoadedByte(before, disk, h, k, a) == h[a - ELFHDR] {
      SameByteMeans(disk, Position(h, k, a), a - ELFHDR);
    }
  }

  /** The program header that is read from memory is the one of the image. */
  lemma SegmentInMemory(before: seq<byte>, disk: Disk, k: nat)
    requires |before| == ADDRESSES && TableFits(Header(disk)) && k < PhNum(Header(disk)) && SegmentReadable(Header(disk), k)
    ensures var h := Header(disk);
      var m, s, at := LoadedMemory(before, disk, h, k), Segment(h, k), ELFHDR + PhOff(h) + 32 * k;
      && at + 32 <= |m|
      && s.pa == Le32(m, at + 12) && s.memsz == Le32(m, at + 20) && s.offset == Le32(m, at + 4)
      && End(s.pa, s.memsz) <= ADDRESSES - SECTSIZE
  {
    hide Le32, Le16, FieldInPlace;
    var at := PhOff(Header(disk)) + 32 * k;
    FieldStays(before, disk, k, at + 4);
    FieldStays(before, disk, k, at + 12);
    FieldStays(before, disk, k, at + 20);
  }
}
