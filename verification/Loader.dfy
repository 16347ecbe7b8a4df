/** Demand paging of an ELF file against loading the whole of it. */
module Loader {
  import opened Basics
  import opened MinixFiles

  const TWO_64: int := 0x1_0000_0000_0000_0000
  const PAGE_SIZE: nat := 4096
  const USER_BREAK: nat := 0x0000_8000_0000_0000
  const PT_LOAD: nat := 1

  type u64 = x: int | 0 <= x < 0x1_0000_0000_0000_0000

  datatype Phdr = Phdr(ptype: nat, offset: u64, vaddr: u64, filesz: u64, memsz: u64)

  /** Addition on 64-bit words. */
  function Add(x: u64, y: u64): u64 {
    (x + y) % TWO_64
  }

  function Max(x: u64, y: u64): u64 {
    if x < y then y else x
  }

  /** As a signed 64-bit number. */
  function Signed64(x: u64): int {
    if x < 0x8000_0000_0000_0000 then x else x - TWO_64
  }

  // ---------------------------------------------------------------------
  // The eager image
  // ---------------------------------------------------------------------

  /** The file has a byte for address x in segment h. */
  predicate Covers(h: Phdr, x: int) {
    h.vaddr <= x < h.vaddr + h.filesz
  }

  /** Some byte of segment h, from the file or zero, is on the page. */
  predicate Touches(h: Phdr, page: int) {
    h.vaddr < page + PAGE_SIZE && (h.vaddr + h.filesz > page || h.vaddr + h.memsz > page)
  }

  /** The file is long enough to load all of segment h; nothing is read for a segment without file
      bytes, wherever its offset points. */
  predicate InFile(h: Phdr, f: Inode) {
    h.filesz == 0 || h.offset + h.filesz <= f.size
  }

  /** The byte at address x after loading everything: from the file where a segment has one, else 0. */
  ghost predicate HasByte(phdrs: seq<Phdr>, f: Inode, x: int, b: Byte)
    requires f.size <= |f.disk|
  {
    && (forall h :: h in phdrs && Covers(h, x) && InFile(h, f) ==> b == f.disk[h.offset + (x - h.vaddr)])
    && ((forall h :: h in phdrs ==> !Covers(h, x)) ==> b == 0)
  }

  /** The page in the frame at this place of memory is that page of the image. */
  ghost predicate IsImage(phdrs: seq<Phdr>, f: Inode, page: int, m: seq<Byte>, frame: nat)
    requires f.size <= |f.disk| && frame + PAGE_SIZE <= |m|
  {
    forall x :: frame <= x < frame + PAGE_SIZE ==> HasByte(phdrs, f, page + (x - frame), m[x])
  }

  // ---------------------------------------------------------------------
  // prepareHeaders
  // ---------------------------------------------------------------------

  /** A segment that is to be loaded. */
  predicate Loadable(h: Phdr) {
    h.ptype == PT_LOAD && !(h.memsz == 0 && h.filesz == 0)
  }

  function LoadableOf(phdrs: seq<Phdr>): seq<Phdr> {
    if phdrs == [] then []
    else (if Loadable(phdrs[0]) then [phdrs[0]] else []) + LoadableOf(phdrs[1..])
  }

  /** The test of two segments, on 64-bit sums. */
  predicate Clash(h: Phdr, g: Phdr) {
    Max(h.vaddr, g.vaddr) < Min(Add(h.vaddr, h.filesz), Add(g.vaddr, g.filesz))
  }

  ghost predicate NoClash(phdrs: seq<Phdr>) {
    forall i, j :: 0 <= i < j < |phdrs| ==> !Clash(phdrs[j], phdrs[i])
  }

  /** Of two segments whose ends are 64-bit addresses, the test finds exactly those with an address
      in common: adjacent ones pass. */
  lemma ClashIff(h: Phdr, g: Phdr)
    requires h.vaddr + h.filesz < TWO_64 && g.vaddr + g.filesz < TWO_64
    ensures Clash(h, g) <==> exists x :: Covers(h, x) && Covers(g, x)
  {
    if Clash(h, g) {
      var x := Max(h.vaddr, g.vaddr);
      assert Covers(h, x) && Covers(g, x);
    }
  }

  /** So headers pass exactly if no address belongs to two of them. */
  lemma NoClashIff(phdrs: seq<Phdr>)
    requires forall h :: h in phdrs ==> h.vaddr + h.filesz < TWO_64
    ensures NoClash(phdrs) <==> forall i, j, x :: 0 <= i < j < |phdrs| && Covers(phdrs[i], x) ==> !Covers(phdrs[j], x)
  {
    hide Clash, Covers;
    forall i, j | 0 <= i < j < |phdrs|
      ensures Clash(phdrs[j], phdrs[i]) <==> exists x :: Covers(phdrs[j], x) && Covers(phdrs[i], x)
    {
      assert phdrs[i] in phdrs && phdrs[j] in phdrs;
      ClashIff(phdrs[j], phdrs[i]);
    }
  }

  /** The headers that are kept: those of type 1 with a size, once each and in order. */
  lemma {:induction false} KeptInOrder(phdrs: seq<Phdr>) returns (at: seq<nat>)
    ensures Selects(phdrs, LoadableOf(phdrs), at)
    ensures forall i :: 0 <= i < |phdrs| ==> (i in at <==> phdrs[i].ptype == 1 && (phdrs[i].memsz != 0 || phdrs[i].filesz != 0))
  {
    at := [];
    if phdrs != [] {
      hide Selects, Indices;
      var rest := KeptInOrder(phdrs[1..]);
      SelectsMore(phdrs, LoadableOf(phdrs[1..]), rest, Loadable(phdrs[0]));
      IndicesIn(Loadable(phdrs[0]), rest);
      at := Indices(Loadable(phdrs[0]), rest);
    }
  }

  // ---------------------------------------------------------------------
  // What loadPage computes, on 64-bit words
  // ---------------------------------------------------------------------

  /** Stopped stands for an assert of the file system that fails, or a fault behind the end of memory:
      both stop the kernel. */
  datatype LoadResult = Mapped | ReadError | NoContent | Stopped

  /** The page has bytes of segment h that come from the file. */
  predicate FromFile(h: Phdr, page: u64) {
    h.vaddr < page + PAGE_SIZE && Add(h.vaddr, h.filesz) > page
  }

  /** The page counts as having content of segment h. */
  predicate HasContent(h: Phdr, page: u64) {
    h.vaddr < page + PAGE_SIZE && (Add(h.vaddr, h.filesz) > page || Add(h.vaddr, h.memsz) > page)
  }

  /** virt_start_addr, virt_offs_on_page, bin_start_addr and bytes_to_load. */
  function Start(h: Phdr, page: u64): u64 {
    Max(page, h.vaddr)
  }

  function OffsetOnPage(h: Phdr, page: u64): nat {
    Start(h, page) - page
  }

  function Position(h: Phdr, page: u64): u64 {
    Add(h.offset, Start(h, page) - h.vaddr)
  }

  function Length(h: Phdr, page: u64): u64
    requires page < USER_BREAK
  {
    (Min(page + PAGE_SIZE, Add(h.vaddr, h.filesz)) - Start(h, page)) % TWO_64
  }

  /** A segment that begins on the page and whose end, as a 64-bit sum, lies on it before that. */
  predicate EndsBeforeItBegins(h: Phdr, page: u64) {
    page < Add(h.vaddr, h.filesz) < h.vaddr < page + PAGE_SIZE
  }

  /** What is asked for fits on the page, except in that one case. */
  lemma ReadFitsIff(h: Phdr, page: u64)
    requires page < USER_BREAK && FromFile(h, page)
    ensures OffsetOnPage(h, page) + Length(h, page) <= PAGE_SIZE <==> !EndsBeforeItBegins(h, page)
  {
  }

  lemma ReadNeedNotFit()
    ensures var h := Phdr(PT_LOAD, 0, 0x1800, TWO_64 - 0x400, TWO_64 - 0x400);
            FromFile(h, 0x1000) && OffsetOnPage(h, 0x1000) + Length(h, 0x1000) > PAGE_SIZE
  {
  }

  /** How far before its begin such a segment ends. */
  function Gap(h: Phdr, page: u64): nat
    requires EndsBeforeItBegins(h, page)
  {
    h.vaddr - Add(h.vaddr, h.filesz)
  }

  // What the file layer is asked for: the low 32 bits of position and length.

  function FileOffset(h: Phdr, page: u64): u32 {
    Position(h, page) % TWO_32
  }

  function Count(h: Phdr, page: u64): u32
    requires page < USER_BREAK
  {
    Length(h, page) % TWO_32
  }

  lemma Requested(h: Phdr, page: u64)
    requires page < USER_BREAK && FromFile(h, page)
    ensures OffsetOnPage(h, page) < PAGE_SIZE
    ensures !EndsBeforeItBegins(h, page) ==>
              Count(h, page) == Length(h, page) == Signed64(Length(h, page)) <= PAGE_SIZE - OffsetOnPage(h, page)
    ensures EndsBeforeItBegins(h, page) ==>
              var g := Gap(h, page);
              0 < g < OffsetOnPage(h, page) && Count(h, page) == TWO_32 - g && Signed64(Length(h, page)) == 0 - g
  {
    LengthIs(h, page);
    hide Length, Add;
    if EndsBeforeItBegins(h, page) {
      LowWord(Gap(h, page));
    }
  }

  lemma LengthIs(h: Phdr, page: u64)
    requires page < USER_BREAK && FromFile(h, page)
    ensures EndsBeforeItBegins(h, page) ==> Start(h, page) == h.vaddr && Length(h, page) == TWO_64 - Gap(h, page)
    ensures !EndsBeforeItBegins(h, page) ==> Length(h, page) == Min(page + PAGE_SIZE, Add(h.vaddr, h.filesz)) - Start(h, page)
  {
    hide Add;
  }

  lemma LowWord(gap: nat)
    requires 0 < gap < TWO_32
    ensures (TWO_64 - gap) % TWO_32 == TWO_32 - gap
  {
    assert TWO_64 - gap == (TWO_32 - 1) * TWO_32 + (TWO_32 - gap);
  }

  /** The bytes the read for segment h stores from its place on the page on, be it long enough or not. */
  function Delivered(h: Phdr, f: Inode, page: u64): (n: nat)
    requires page < USER_BREAK
    ensures n > 0 ==> FileOffset(h, page) + n <= |f.disk|
  {
    if FromFile(h, page) && Count(h, page) > 0 then Stored(f, FileOffset(h, page), Count(h, page)) else 0
  }

  /** An assert of the file system fails. */
  predicate AssertFails(h: Phdr, f: Inode, page: u64)
    requires page < USER_BREAK
  {
    FromFile(h, page) && Count(h, page) > 0 && Asserts(f, FileOffset(h, page), Count(h, page))
  }

  /** The number returned is not the one asked for. */
  predicate ReadFails(h: Phdr, f: Inode, page: u64)
    requires page < USER_BREAK
  {
    FromFile(h, page) &&
    (if Count(h, page) == 0 then 0 else Result(f, FileOffset(h, page), Count(h, page))) != Signed64(Length(h, page))
  }

  predicate Succeeds(h: Phdr, f: Inode, page: u64)
    requires page < USER_BREAK
  {
    !AssertFails(h, f, page) && !ReadFails(h, f, page)
  }

  // ---------------------------------------------------------------------
  // Reads that fit, and reads that do not
  // ---------------------------------------------------------------------

  /** A read that fits succeeds exactly if the file has the bytes from the low 32 bits of the position
      on; then these are delivered, else less. */
  lemma FitRead(h: Phdr, f: Inode, page: u64)
    requires page < USER_BREAK && Valid(f) && FromFile(h, page) && !EndsBeforeItBegins(h, page)
    ensures Delivered(h, f, page) <= Length(h, page)
    ensures Succeeds(h, f, page) <==> Length(h, page) == 0 || FileOffset(h, page) + Length(h, page) <= f.size
    ensures Succeeds(h, f, page) ==> Delivered(h, f, page) == Length(h, page)
  {
    hide Stored, Asserts, Result, Length, FileOffset, EndsBeforeItBegins, Valid;
    Requested(h, page);
    if Length(h, page) > 0 {
      FitStored(f, FileOffset(h, page), Length(h, page));
    }
  }

  lemma FitStored(f: Inode, offset: u32, n: nat)
    requires Valid(f) && 0 < n <= PAGE_SIZE
    ensures Stored(f, offset, n) <= n
    ensures !Asserts(f, offset, n) && Result(f, offset, n) == n <==> offset + n <= f.size
    ensures offset + n <= f.size ==> Stored(f, offset, n) == n
  {
    hide EndZone, UpTo;
    if offset + n <= f.size {
      assert (n + offset) % TWO_32 == offset + n;
      EndZoneOf(offset, n);
      AllBefore(f, offset, n, (offset + n) / ZONE_SIZE + 1);
    } else if offset + n < TWO_32 {
      assert (n + offset) % TWO_32 == offset + n;
    } else {
      assert (n + offset) % TWO_32 == offset + n - TWO_32;
      EndZoneBehind(offset, n);
    }
  }

  lemma AllBefore(f: Inode, offset: u32, n: nat, end: nat)
    requires offset + n <= end * ZONE_SIZE && end <= Zones(f)
    ensures UpTo(f, offset, n, end) == n
  {
  }

  lemma EndZoneBehind(offset: u32, n: nat)
    ensures EndZone(offset, n) > offset / ZONE_SIZE
  {
  }

  /** So it succeeds when it should exactly if the position has 32 bits, or the file does not reach
      that far in its low 32 bits either. */
  lemma SucceedsRightlyIff(h: Phdr, f: Inode, page: u64)
    requires page < USER_BREAK && Valid(f) && FromFile(h, page) && !EndsBeforeItBegins(h, page) && Length(h, page) > 0
    ensures (Succeeds(h, f, page) <==> Position(h, page) + Length(h, page) <= f.size) <==>
            Position(h, page) < TWO_32 || FileOffset(h, page) + Length(h, page) > f.size
  {
    hide Succeeds, Delivered, Length, Position, FromFile, EndsBeforeItBegins;
    FitRead(h, f, page);
    LowBits(Position(h, page), Length(h, page), f.size);
  }

  lemma LowBits(p: nat, n: nat, size: nat)
    requires size < TWO_32
    ensures (p % TWO_32 + n <= size <==> p + n <= size) <==> p < TWO_32 || p % TWO_32 + n > size
  {
  }

  /** Where the read ends when it does not fit.  From near the begin of the file it is clipped to the
      file.  Else its end wraps, and what is read is nothing, or the rest of one zone, or all zones. */
  function MisfitEnd(f: Inode, offset: u32, gap: nat): nat {
    if offset < gap then f.size
    else if offset - gap > f.size then 0
    else if offset % ZONE_SIZE >= gap then Min(offset - offset % ZONE_SIZE + ZONE_SIZE, |f.disk|)
    else |f.disk|
  }

  lemma MisfitRead(h: Phdr, f: Inode, page: u64)
    requires page < USER_BREAK && Valid(f) && FromFile(h, page) && EndsBeforeItBegins(h, page)
    ensures var o, g := FileOffset(h, page), Gap(h, page);
            var end := MisfitEnd(f, o, g);
            && Delivered(h, f, page) == (if o < end then end - o else 0)
            && (Succeeds(h, f, page) <==> g <= o % ZONE_SIZE && o - g <= f.size && o < |f.disk|)
            && (AssertFails(h, f, page) <==> g <= o && o - g <= f.size && (o % ZONE_SIZE < g || |f.disk| <= o))
  {
    hide Stored, Asserts, Result, Length, FileOffset, EndsBeforeItBegins, Gap, MisfitEnd, Valid;
    Requested(h, page);
    MisfitStored(f, FileOffset(h, page), Gap(h, page));
  }

  lemma MisfitStored(f: Inode, offset: u32, gap: nat)
    requires Valid(f) && 0 < gap < PAGE_SIZE
    ensures var count, end := TWO_32 - gap, MisfitEnd(f, offset, gap);
            && Stored(f, offset, count) == (if offset < end then end - offset else 0)
            && (!Asserts(f, offset, count) && Result(f, offset, count) == 0 - gap <==>
                gap <= offset % ZONE_SIZE && offset - gap <= f.size && offset < |f.disk|)
            && (Asserts(f, offset, count) <==>
                gap <= offset && offset - gap <= f.size && (offset % ZONE_SIZE < gap || |f.disk| <= offset))
  {
    hide EndZone, UpTo;
    if offset < gap {
      assert (TWO_32 - gap + offset) % TWO_32 == TWO_32 - gap + offset;
      if offset < f.size {
        ToTheEnd(f, offset);
      }
    } else {
      assert (TWO_32 - gap + offset) % TWO_32 == offset - gap;
      if offset - gap <= f.size {
        WrappedEnd(f, offset, gap);
      }
    }
  }

  lemma ToTheEnd(f: Inode, offset: u32)
    requires Valid(f) && offset < f.size
    ensures var n := f.size - offset;
            EndZone(offset, n) <= Zones(f) && UpTo(f, offset, n, EndZone(offset, n)) == n
  {
    EndZoneOf(offset, f.size - offset);
  }

  lemma WrappedEnd(f: Inode, offset: u32, gap: nat)
    requires Valid(f) && 0 < gap < PAGE_SIZE && gap <= offset && offset - gap <= f.size
    ensures var n := TWO_32 - gap;
            && (EndZone(offset, n) <= Zones(f) <==> gap <= offset % ZONE_SIZE && offset < |f.disk|)
            && UpTo(f, offset, n, EndZone(offset, n)) ==
               var end := MisfitEnd(f, offset, gap); if offset < end then end - offset else 0
  {
    var n, from := TWO_32 - gap, offset % ZONE_SIZE;
    if from < gap {
      EndZoneOf(offset, n);
    } else {
      assert (from + n) % TWO_32 == from - gap;
    }
  }

  /** The read for segment h stores bytes behind the page. */
  predicate Spills(h: Phdr, f: Inode, page: u64)
    requires page < USER_BREAK
  {
    FromFile(h, page) && OffsetOnPage(h, page) + Delivered(h, f, page) > PAGE_SIZE
  }

  /** Bytes are stored behind the page exactly for a segment whose 64-bit end lies on the page before
      its begin, and which has more to deliver than the rest of the page holds. */
  lemma SpillsIff(h: Phdr, f: Inode, page: u64)
    requires page < USER_BREAK && Valid(f) && FromFile(h, page)
    ensures Spills(h, f, page) <==>
            && EndsBeforeItBegins(h, page)
            && MisfitEnd(f, FileOffset(h, page), Gap(h, page)) > FileOffset(h, page) + (PAGE_SIZE - OffsetOnPage(h, page))
  {
    Requested(h, page);
    if EndsBeforeItBegins(h, page) {
      MisfitRead(h, f, page);
    } else {
      FitRead(h, f, page);
    }
  }

  /** So no segment whose end is a 64-bit address stores anything behind a page. */
  lemma NothingSpills(h: Phdr, f: Inode, page: u64)
    requires page < USER_BREAK && Valid(f) && h.vaddr + h.filesz < TWO_64
    ensures !Spills(h, f, page)
  {
    hide MisfitEnd, Delivered;
    if FromFile(h, page) {
      SpillsIff(h, f, page);
    }
  }

  // Inputs.  prepareHeaders accepts each of these headers.

  ghost predicate Prepared(phdrs: seq<Phdr>) {
    phdrs != [] && LoadableOf(phdrs) == phdrs && NoClash(phdrs)
  }

  lemma PreparedOne(h: Phdr)
    requires Loadable(h)
    ensures Prepared([h])
  {
    assert LoadableOf([h][1..]) == [];
  }

  /** A segment from 0x1800 on whose 64-bit end lies that far before. */
  function Wrapping(offset: u32, gap: nat): Phdr
    requires gap < 0x800
  {
    Phdr(PT_LOAD, offset, 0x1800, (TWO_64 - gap) % TWO_64, 0)
  }

  lemma WrappingIs(offset: u32, gap: nat)
    requires 0 < gap < 0x800
    ensures var h := Wrapping(offset, gap);
            && Prepared([h]) && FromFile(h, 0x1000) && EndsBeforeItBegins(h, 0x1000) && Gap(h, 0x1000) == gap
            && OffsetOnPage(h, 0x1000) == 0x800 && FileOffset(h, 0x1000) == offset
  {
    PreparedOne(Wrapping(offset, gap));
  }

  /** 0x2000 bytes at 0x800 of the page. */
  lemma SpillingRead(f: Inode)
    requires Valid(f) && f.size == 0x2000
    ensures var h := Wrapping(0, 0x400);
            && Prepared([h]) && FromFile(h, 0x1000) && ReadFails(h, f, 0x1000)
            && OffsetOnPage(h, 0x1000) == 0x800 && Delivered(h, f, 0x1000) == 0x2000 && Spills(h, f, 0x1000)
  {
    hide Delivered, Wrapping, FromFile, Gap, FileOffset, Prepared, EndsBeforeItBegins, OffsetOnPage, ReadFails, AssertFails, Valid;
    WrappingIs(0, 0x400);
    MisfitRead(Wrapping(0, 0x400), f, 0x1000);
  }

  /** A read that does not fit and succeeds, with 1023 bytes delivered. */
  lemma MisfitThatSucceeds(f: Inode)
    requires Valid(f) && f.size > 0
    ensures var h := Wrapping(1, 1);
            && Prepared([h]) && FromFile(h, 0x1000) && OffsetOnPage(h, 0x1000) + Length(h, 0x1000) > PAGE_SIZE
            && Succeeds(h, f, 0x1000) && Delivered(h, f, 0x1000) == 1023
  {
    hide Delivered, Wrapping, FromFile, Gap, FileOffset, Prepared, EndsBeforeItBegins, OffsetOnPage, Length, Succeeds;
    WrappingIs(1, 1);
    ReadFitsIff(Wrapping(1, 1), 0x1000);
    MisfitRead(Wrapping(1, 1), f, 0x1000);
  }

  /** A position far behind the end of the file from where a page is read. */
  lemma TruncatedPosition(f: Inode)
    requires Valid(f) && f.size >= 0x1000
    ensures var h := Phdr(PT_LOAD, TWO_32, 0x1000, 0x1000, 0x1000);
            && Prepared([h]) && !InFile(h, f) && FromFile(h, 0x1000) && Succeeds(h, f, 0x1000)
            && FileOffset(h, 0x1000) == 0 && Delivered(h, f, 0x1000) == 0x1000
  {
    var h := Phdr(PT_LOAD, TWO_32, 0x1000, 0x1000, 0x1000);
    hide Delivered, Succeeds, AssertFails;
    PreparedOne(h);
    FitRead(h, f, 0x1000);
  }

  // ---------------------------------------------------------------------
  // Memory after the reads
  // ---------------------------------------------------------------------

  /** Memory, with the page in this frame, after the read for segment h. */
  function AfterSegment(m: seq<Byte>, frame: nat, h: Phdr, f: Inode, page: u64): (r: seq<Byte>)
    requires page < USER_BREAK && frame + PAGE_SIZE <= |m|
    ensures |r| == |m|
  {
    if FromFile(h, page) then Overwrite(m, frame + OffsetOnPage(h, page), Bytes(f, FileOffset(h, page), Delivered(h, f, page)))
    else m
  }

  /** The same after the reads for all segments, one after the other. */
  ghost function MemoryAfter(m: seq<Byte>, frame: nat, phdrs: seq<Phdr>, f: Inode, page: u64): (r: seq<Byte>)
    requires page < USER_BREAK && frame + PAGE_SIZE <= |m|
    ensures |r| == |m|
  {
    if phdrs == [] then m
    else AfterSegment(MemoryAfter(m, frame, phdrs[..|phdrs| - 1], f, page), frame, phdrs[|phdrs| - 1], f, page)
  }

  /** Outside the frame. */
  ghost predicate SameElsewhere(m: seq<Byte>, m': seq<Byte>, frame: nat) {
    |m'| == |m| && forall x :: 0 <= x < |m| && !(frame <= x < frame + PAGE_SIZE) ==> m'[x] == m[x]
  }

  /** Where nothing spills, nothing outside the frame is written. */
  lemma {:induction false} OnlyTheFrame(m: seq<Byte>, frame: nat, phdrs: seq<Phdr>, f: Inode, page: u64)
    requires page < USER_BREAK && frame + PAGE_SIZE <= |m|
    requires forall h :: h in phdrs ==> !Spills(h, f, page)
    ensures SameElsewhere(m, MemoryAfter(m, frame, phdrs, f, page), frame)
  {
    if phdrs != [] {
      var rest, g := phdrs[..|phdrs| - 1], phdrs[|phdrs| - 1];
      assert phdrs == rest + [g];
      OnlyTheFrame(m, frame, rest, f, page);
      hide Spills, Overwrite, Delivered;
      OneInTheFrame(MemoryAfter(m, frame, rest, f, page), frame, g, f, page);
    }
  }

  lemma OneInTheFrame(m: seq<Byte>, frame: nat, h: Phdr, f: Inode, page: u64)
    requires page < USER_BREAK && frame + PAGE_SIZE <= |m| && !Spills(h, f, page)
    ensures SameElsewhere(m, AfterSegment(m, frame, h, f, page), frame)
  {
    hide Overwrite, Delivered;
  }

  /** The first byte behind the frame, where something spills. */
  lemma SpilledByte(m: seq<Byte>, frame: nat, h: Phdr, f: Inode, page: u64)
    requires page < USER_BREAK && frame + PAGE_SIZE < |m| && Spills(h, f, page)
    ensures var o := FileOffset(h, page) + (PAGE_SIZE - OffsetOnPage(h, page));
            o < |f.disk| && AfterSegment(m, frame, h, f, page)[frame + PAGE_SIZE] == f.disk[o]
  {
    hide Overwrite, Delivered, FileOffset;
  }

  /** So with ends that are 64-bit addresses nothing but the frame is written, whatever else the
      headers and the file are like. */
  lemma NothingElsewhere(m: seq<Byte>, frame: nat, phdrs: seq<Phdr>, f: Inode, page: u64)
    requires page < USER_BREAK && Valid(f) && frame + PAGE_SIZE <= |m|
    requires forall h :: h in phdrs ==> h.vaddr + h.filesz < TWO_64
    ensures SameElsewhere(m, MemoryAfter(m, frame, phdrs, f, page), frame)
  {
    hide Spills, SameElsewhere, MemoryAfter;
    forall h | h in phdrs ensures !Spills(h, f, page) {
      NothingSpills(h, f, page);
    }
    OnlyTheFrame(m, frame, phdrs, f, page);
  }

  // ---------------------------------------------------------------------
  // Demand paging is loading the whole
  // ---------------------------------------------------------------------

  predicate UserPage(page: u64) {
    page < USER_BREAK && page % PAGE_SIZE == 0
  }

  /** Loading everything is possible: the file has all segments. */
  ghost predicate Complete(phdrs: seq<Phdr>, f: Inode) {
    Valid(f) && forall h :: h in phdrs ==> InFile(h, f)
  }

  /** Then the sums are right wherever a page below USER_BREAK is concerned, and the reads succeed. */
  lemma SumsAreRight(h: Phdr, f: Inode, page: u64)
    requires Valid(f) && InFile(h, f) && UserPage(page)
    ensures h.vaddr < page + PAGE_SIZE ==> Add(h.vaddr, h.filesz) == h.vaddr + h.filesz
    ensures !EndsBeforeItBegins(h, page)
    ensures FromFile(h, page) && Length(h, page) > 0 ==>
              FileOffset(h, page) == h.offset + (Start(h, page) - h.vaddr) && FileOffset(h, page) + Length(h, page) <= f.size
  {
  }

  lemma ReadsSucceed(h: Phdr, f: Inode, page: u64)
    requires Valid(f) && InFile(h, f) && UserPage(page)
    ensures Succeeds(h, f, page) && !Spills(h, f, page) && (FromFile(h, page) ==> Delivered(h, f, page) == Length(h, page))
  {
    SumsAreRight(h, f, page);
    if FromFile(h, page) {
      FitRead(h, f, page);
      Requested(h, page);
    }
  }

  /** Two segments that passed the test have no address below USER_BREAK in common. */
  lemma NoCommonAddress(h: Phdr, g: Phdr, f: Inode, x: int)
    requires Valid(f) && InFile(h, f) && InFile(g, f) && x < USER_BREAK + PAGE_SIZE
    requires Covers(h, x) && Covers(g, x)
    ensures Clash(h, g)
  {
  }

  lemma SegmentByte(m: seq<Byte>, frame: nat, h: Phdr, f: Inode, page: u64, x: nat)
    requires Valid(f) && InFile(h, f) && UserPage(page) && frame <= x < frame + PAGE_SIZE <= |m|
    ensures var a := page + (x - frame);
            AfterSegment(m, frame, h, f, page)[x] == if Covers(h, a) then f.disk[h.offset + (a - h.vaddr)] else m[x]
  {
    hide Overwrite, Delivered, Succeeds, Spills, Length, FileOffset, Start, FromFile, Covers, InFile, Valid;
    ReadsSucceed(h, f, page);
    PlaceInFile(h, f, page, page + (x - frame));
  }

  /** What is read is what the segment has on the page. */
  lemma PlaceInFile(h: Phdr, f: Inode, page: u64, a: int)
    requires Valid(f) && InFile(h, f) && UserPage(page) && page <= a < page + PAGE_SIZE
    ensures Covers(h, a) <==> FromFile(h, page) && page + OffsetOnPage(h, page) <= a < page + OffsetOnPage(h, page) + Length(h, page)
    ensures Covers(h, a) ==> FileOffset(h, page) + (a - page - OffsetOnPage(h, page)) == h.offset + (a - h.vaddr)
  {
    hide FileOffset;
    SumsAreRight(h, f, page);
  }

  /** One more segment, which has no address in common with those before. */
  lemma ByteStep(phdrs: seq<Phdr>, g: Phdr, f: Inode, x: int, b: Byte, b': Byte)
    requires Complete(phdrs + [g], f) && NoClash(phdrs + [g]) && x < USER_BREAK + PAGE_SIZE
    requires InFile(g, f) && HasByte(phdrs, f, x, b)
    requires b' == if Covers(g, x) then f.disk[g.offset + (x - g.vaddr)] else b
    ensures HasByte(phdrs + [g], f, x, b')
  {
    var all := phdrs + [g];
    assert all[|phdrs|] == g && forall i :: 0 <= i < |phdrs| ==> all[i] == phdrs[i] && !Clash(g, phdrs[i]);
    assert forall h :: h in all <==> h in phdrs || h == g;
    hide NoClash, Clash;
    if Covers(g, x) {
      forall h | h in phdrs ensures !Covers(h, x) {
        if Covers(h, x) {
          NoCommonAddress(g, h, f, x);
        }
      }
    }
  }

  lemma WithoutLast(phdrs: seq<Phdr>, g: Phdr, f: Inode)
    requires Complete(phdrs + [g], f) && NoClash(phdrs + [g])
    ensures Complete(phdrs, f) && NoClash(phdrs) && InFile(g, f)
  {
    var all := phdrs + [g];
    assert all[|phdrs|] == g && forall i :: 0 <= i < |phdrs| ==> all[i] == phdrs[i];
    assert forall h :: h in phdrs ==> h in all;
  }

  /** A frame of zeroes, as allocPPN returns it. */
  ghost predicate Cleared(m: seq<Byte>, frame: nat) {
    frame + PAGE_SIZE <= |m| && forall x :: frame <= x < frame + PAGE_SIZE ==> m[x] == 0
  }

  lemma {:induction false} PageByte(m: seq<Byte>, frame: nat, phdrs: seq<Phdr>, f: Inode, page: u64, x: nat)
    requires Cleared(m, frame) && UserPage(page) && Complete(phdrs, f) && NoClash(phdrs) && frame <= x < frame + PAGE_SIZE
    ensures HasByte(phdrs, f, page + (x - frame), MemoryAfter(m, frame, phdrs, f, page)[x])
  {
    hide NoClash, InFile, AfterSegment;
    if phdrs != [] {
      var rest, g := phdrs[..|phdrs| - 1], phdrs[|phdrs| - 1];
      hide HasByte;
      assert phdrs == rest + [g];
      WithoutLast(rest, g, f);
      hide Complete;
      PageByte(m, frame, rest, f, page, x);
      SegmentByte(MemoryAfter(m, frame, rest, f, page), frame, g, f, page, x);
      ByteStep(rest, g, f, page + (x - frame), MemoryAfter(m, frame, rest, f, page)[x], MemoryAfter(m, frame, phdrs, f, page)[x]);
    }
  }

  /** A page loaded on demand is that page of the eager image, no read fails, and nothing but the
      frame is written. */
  lemma LoadedPageIsImage(m: seq<Byte>, frame: nat, phdrs: seq<Phdr>, f: Inode, page: u64)
    requires Cleared(m, frame) && Complete(phdrs, f) && NoClash(phdrs) && UserPage(page)
    ensures IsImage(phdrs, f, page, MemoryAfter(m, frame, phdrs, f, page), frame)
    ensures SameElsewhere(m, MemoryAfter(m, frame, phdrs, f, page), frame)
    ensures forall h :: h in phdrs ==> Succeeds(h, f, page)
  {
    hide Succeeds, Spills, InFile, FromFile, SameElsewhere, NoClash;
    forall h | h in phdrs ensures Succeeds(h, f, page) && !Spills(h, f, page) {
      ReadsSucceed(h, f, page);
    }
    OnlyTheFrame(m, frame, phdrs, f, page);
    forall x | frame <= x < frame + PAGE_SIZE ensures HasByte(phdrs, f, page + (x - frame), MemoryAfter(m, frame, phdrs, f, page)[x]) {
      PageByte(m, frame, phdrs, f, page, x);
    }
  }

  /** The order of the headers does not matter. */
  lemma OrderDoesNotMatter(m: seq<Byte>, frame: nat, a: seq<Phdr>, b: seq<Phdr>, f: Inode, page: u64)
    requires Cleared(m, frame) && Complete(a, f) && NoClash(a) && NoClash(b) && UserPage(page)
    requires forall h :: h in a <==> h in b
    ensures MemoryAfter(m, frame, a, f, page) == MemoryAfter(m, frame, b, f, page)
  {
    hide InFile, NoClash, MemoryAfter, Succeeds, HasByte;
    assert Complete(b, f);
    LoadedPageIsImage(m, frame, a, f, page);
    LoadedPageIsImage(m, frame, b, f, page);
    var p, q := MemoryAfter(m, frame, a, f, page), MemoryAfter(m, frame, b, f, page);
    forall x | 0 <= x < |m| ensures p[x] == q[x] {
      if frame <= x < frame + PAGE_SIZE {
        SameByte(a, b, f, page + (x - frame), p[x], q[x]);
      }
    }
  }

  lemma SameByte(a: seq<Phdr>, b: seq<Phdr>, f: Inode, x: int, p: Byte, q: Byte)
    requires Complete(a, f) && HasByte(a, f, x, p) && HasByte(b, f, x, q)
    requires forall h :: h in a <==> h in b
    ensures p == q
  {
    if h :| h in a && Covers(h, x) {
      assert p == f.disk[h.offset + (x - h.vaddr)];
    } else {
      assert p == 0;
    }
  }

  /** The test for content agrees with the segment on every page exactly if the end of the segment in
      memory is a 64-bit address, or its part from the file reaches into the last page. */
  lemma ContentIff(h: Phdr, f: Inode)
    requires Valid(f) && InFile(h, f)
    ensures (forall page :: 0 <= page < TWO_64 && UserPage(page) ==> (HasContent(h, page) <==> Touches(h, page)))
            <==> h.vaddr + h.memsz < TWO_64 || h.vaddr + h.filesz > USER_BREAK - PAGE_SIZE
  {
    var last := USER_BREAK - PAGE_SIZE;
    if h.vaddr + h.memsz >= TWO_64 && h.vaddr + h.filesz <= last {
      assert UserPage(last) && Touches(h, last) && !HasContent(h, last);
    }
  }

  /** A segment whose end in memory wraps: all of memory behind its file bytes is missed. */
  lemma ContentMissed()
    ensures var h := Phdr(PT_LOAD, 0, 0x1000, 0, TWO_64 - 0x800);
            Touches(h, 0x2000) && !HasContent(h, 0x2000)
  {
  }

  /** The end of the segment in memory wraps, and its file bytes end, like the wrapped sum, at or
      before the page. */
  predicate Missed(h: Phdr, page: u64) {
    h.vaddr + h.memsz >= TWO_64 && h.vaddr + h.filesz <= page && h.vaddr + h.memsz - TWO_64 <= page
  }

  /** loadPage refuses a page for lack of content exactly if no segment touches it, or every one that
      does has an end in memory that wraps: both directions, page by page. */
  lemma RefusedIff(phdrs: seq<Phdr>, f: Inode, page: u64)
    requires Complete(phdrs, f) && UserPage(page)
    ensures (forall h :: h in phdrs ==> !HasContent(h, page)) <==> (forall h :: h in phdrs && Touches(h, page) ==> Missed(h, page))
  {
    forall h | h in phdrs ensures HasContent(h, page) <==> Touches(h, page) && !Missed(h, page) {
      SumsAreRight(h, f, page);
    }
  }

  /** With no end that wraps, exactly if no segment touches it. */
  lemma RefusedIffUntouched(phdrs: seq<Phdr>, f: Inode, page: u64)
    requires Complete(phdrs, f) && UserPage(page)
    requires forall h :: h in phdrs ==> h.vaddr + h.memsz < TWO_64 || h.vaddr + h.filesz > USER_BREAK - PAGE_SIZE
    ensures (forall h :: h in phdrs ==> !HasContent(h, page)) <==> (forall h :: h in phdrs ==> !Touches(h, page))
  {
    RefusedIff(phdrs, f, page);
  }

  lemma LoadableHead(phdrs: seq<Phdr>, it: nat)
    requires it < |phdrs|
    ensures var rest, kept := LoadableOf(phdrs[it + 1..]), phdrs[..it] + phdrs[it + 1..];
            && (Loadable(phdrs[it]) ==> phdrs[..it] + LoadableOf(phdrs[it..]) == phdrs[..it + 1] + rest)
            && (!Loadable(phdrs[it]) ==> LoadableOf(phdrs[it..]) == rest)
            && kept[..it] == phdrs[..it] && kept[it..] == phdrs[it + 1..]
  {
    assert phdrs[it..][1..] == phdrs[it + 1..];
  }

  lemma LoadableEnd(phdrs: seq<Phdr>)
    ensures phdrs[..|phdrs|] == phdrs && phdrs + LoadableOf(phdrs[|phdrs|..]) == phdrs
  {
  }

  lemma NoClashStep(phdrs: seq<Phdr>, it: nat, all: seq<Phdr>, clash: bool)
    requires it < |phdrs| && phdrs[..it + 1] <= all && NoClash(phdrs[..it])
    requires clash <==> exists i :: 0 <= i < it && Clash(phdrs[it], phdrs[i])
    ensures if clash then !NoClash(all) else NoClash(phdrs[..it + 1])
  {
    if clash {
      var i :| 0 <= i < it && Clash(phdrs[it], phdrs[i]);
      assert all[it] == phdrs[..it + 1][it] && all[i] == phdrs[..it + 1][i];
    }
  }

  class Loader {
    var phdrs: seq<Phdr>
    const file: Inode

    constructor (phdrs: seq<Phdr>, file: Inode)
      ensures this.phdrs == phdrs && this.file == file
    {
      this.phdrs, this.file := phdrs, file;
    }

    /** Keeps the loadable headers, and succeeds if there are any and no two clash. */
    method PrepareHeaders() returns (ok: bool)
      modifies this
      ensures ok <==> LoadableOf(old(phdrs)) != [] && NoClash(LoadableOf(old(phdrs)))
      ensures ok ==> phdrs == LoadableOf(old(phdrs))
    {
      ghost var all := LoadableOf(phdrs);
      var it := 0;
      assert NoClash(phdrs[..it]);
      hide LoadableOf, NoClash, Clash;
      while it != |phdrs|
        invariant it <= |phdrs| && all == phdrs[..it] + LoadableOf(phdrs[it..])
        invariant NoClash(phdrs[..it])
        decreases |phdrs| - it
      {
        var h := phdrs[it];
        LoadableHead(phdrs, it);
        if h.ptype != PT_LOAD || (h.memsz == 0 && h.filesz == 0) {
          phdrs := phdrs[..it] + phdrs[it + 1..];
        } else {
          var clash := ClashesBefore(it);
          NoClashStep(phdrs, it, all, clash);
          if clash {
            return false;
          }
          it := it + 1;
        }
      }
      LoadableEnd(phdrs);
      return |phdrs| > 0;
    }

    /** The inner loop of prepareHeaders. */
    method ClashesBefore(it: nat) returns (clash: bool)
      requires it < |phdrs|
      ensures clash <==> exists i :: 0 <= i < it && Clash(phdrs[it], phdrs[i])
    {
      var it2 := 0;
      while it2 != it
        invariant it2 <= it
        invariant forall i :: 0 <= i < it2 ==> !Clash(phdrs[it], phdrs[i])
      {
        if Clash(phdrs[it], phdrs[it2]) {
          return true;
        }
        it2 := it2 + 1;
      }
      return false;
    }

    /** readFromBinary behind VfsSyscall::read, which take 32 bits of the length and of the position:
        fails unless the number returned is the length. */
    method ReadFromBinary(memory: array<Byte>, at: nat, position: u64, length: u64) returns (stopped: bool, failed: bool)
      requires Valid(file) && at <= memory.Length
      modifies memory
      ensures var o, n := position % TWO_32, length % TWO_32;
              && (n == 0 ==> !stopped && (failed <==> length != 0) && memory[..] == old(memory[..]))
              && (n > 0 ==>
                    && (stopped <==> Asserts(file, o, n) || at + Stored(file, o, n) > memory.Length)
                    && (!stopped ==> (failed <==> Result(file, o, n) != Signed64(length)))
                    && memory[..] == Overwrite(old(memory[..]), at, Bytes(file, o, Stored(file, o, n))))
    {
      if length % TWO_32 == 0 {
        return false, length != 0;
      }
      hide Asserts, Overwrite, Stored, Result, Bytes;
      var result;
      stopped, result := ReadData(file, position % TWO_32, length % TWO_32, memory, at);
      failed := result != Signed64(length);
    }

    /** Reads what segment h has on the page from the file. */
    method LoadSegment(memory: array<Byte>, frame: nat, h: Phdr, page: u64) returns (stopped: bool, failed: bool)
      requires Valid(file) && frame + PAGE_SIZE <= memory.Length && page < USER_BREAK && FromFile(h, page)
      modifies memory
      ensures stopped <==> StopsAt(h, file, page, memory.Length - frame)
      ensures !stopped ==> (failed <==> ReadFails(h, file, page))
      ensures memory[..] == AfterSegment(old(memory[..]), frame, h, file, page)
    {
      Requested(h, page);
      hide Asserts, Overwrite, Stored, Result, Bytes, Length, Position, Start;
      NothingDelivered(memory[..], frame + OffsetOnPage(h, page), file, FileOffset(h, page));
      stopped, failed := ReadFromBinary(memory, frame + OffsetOnPage(h, page), Position(h, page), Length(h, page));
    }

    /** Loads the page of an address below USER_BREAK into a frame of memory that allocPPN cleared. */
    method LoadPage(address: u64, memory: array<Byte>, frame: nat) returns (r: LoadResult)
      requires address < USER_BREAK && Valid(file) && Cleared(memory[..], frame)
      modifies memory
      ensures var page := address - address % PAGE_SIZE;
              var k := FirstBad(phdrs, file, page, memory.Length - frame);
              && (r.Stopped? <==> k < |phdrs| && StopsAt(phdrs[k], file, page, memory.Length - frame))
              && (r.ReadError? <==> k < |phdrs| && !StopsAt(phdrs[k], file, page, memory.Length - frame))
              && (r.NoContent? <==> forall h :: h in phdrs ==> !HasContent(h, page))
              && memory[..] == MemoryAfter(old(memory[..]), frame, if k < |phdrs| then phdrs[..k + 1] else phdrs, file, page)
      ensures var page := address - address % PAGE_SIZE;
              (forall h :: h in phdrs ==> !Spills(h, file, page)) ==>
                SameElsewhere(old(memory[..]), memory[..], frame)
      ensures var page := address - address % PAGE_SIZE;
              Complete(phdrs, file) && NoClash(phdrs) ==>
                && !r.ReadError? && !r.Stopped? && IsImage(phdrs, file, page, memory[..], frame)
                && SameElsewhere(old(memory[..]), memory[..], frame)
    {
      hide StopsAt, ReadFails, MemoryAfter, Valid, Complete, NoClash, IsImage, SameElsewhere, AnyContent, AfterSegment;
      hide FirstBad, Spills, Cleared, Overwrite, Bytes;
      ghost var m := memory[..];
      var page := address - address % PAGE_SIZE;
      assert frame + PAGE_SIZE <= memory.Length by {
        ClearedFits(m, frame);
      }
      OutcomeOf(m, frame, phdrs, file, page);
      var found := false;
      var it := 0;
      NothingLoaded(m, frame, phdrs, file, page);
      while it != |phdrs|
        invariant it <= |phdrs| && it <= FirstBad(phdrs, file, page, memory.Length - frame)
        invariant memory[..] == MemoryAfter(m, frame, phdrs[..it], file, page)
        invariant found <==> AnyContent(phdrs[..it], page)
      {
        var h := phdrs[it];
        OneMoreSegment(m, frame, phdrs, it, file, page);
        if h.vaddr < page + PAGE_SIZE {
          if Add(h.vaddr, h.filesz) > page {
            var stopped, failed := LoadSegment(memory, frame, h, page);
            if stopped {
              return Stopped;
            }
            if failed {
              return ReadError;
            }
            found := true;
          } else if Add(h.vaddr, h.memsz) > page {
            found := true;
          }
        }
        it := it + 1;
      }
      assert phdrs[..|phdrs|] == phdrs;
      return if found then Mapped else NoContent;
    }
  }

  ghost predicate AnyContent(phdrs: seq<Phdr>, page: u64) {
    exists h :: h in phdrs && HasContent(h, page)
  }

  lemma ClearedFits(m: seq<Byte>, frame: nat)
    requires Cleared(m, frame)
    ensures frame + PAGE_SIZE <= |m|
  {
  }

  lemma NothingLoaded(m: seq<Byte>, frame: nat, phdrs: seq<Phdr>, f: Inode, page: u64)
    requires page < USER_BREAK && frame + PAGE_SIZE <= |m|
    ensures m == MemoryAfter(m, frame, phdrs[..0], f, page) && !AnyContent(phdrs[..0], page)
  {
  }

  lemma OneMoreSegment(m: seq<Byte>, frame: nat, phdrs: seq<Phdr>, it: nat, f: Inode, page: u64)
    requires page < USER_BREAK && frame + PAGE_SIZE <= |m| && it < |phdrs|
    requires it <= FirstBad(phdrs, f, page, |m| - frame)
    ensures var done, h, room := phdrs[..it], phdrs[it], |m| - frame;
            && MemoryAfter(m, frame, phdrs[..it + 1], f, page) == AfterSegment(MemoryAfter(m, frame, done, f, page), frame, h, f, page)
            && (!FromFile(h, page) ==> AfterSegment(MemoryAfter(m, frame, done, f, page), frame, h, f, page) == MemoryAfter(m, frame, done, f, page))
            && (AnyContent(phdrs[..it + 1], page) <==> AnyContent(done, page) || HasContent(h, page))
            && (it == FirstBad(phdrs, f, page, room) <==> StopsAt(h, f, page, room) || ReadFails(h, f, page))
            && (!FromFile(h, page) ==> !StopsAt(h, f, page, room) && !ReadFails(h, f, page))
  {
    hide HasContent, Overwrite, Delivered, AssertFails;
    assert phdrs[..it + 1] == phdrs[..it] + [phdrs[it]];
    assert forall g :: g in phdrs[..it + 1] <==> g in phdrs[..it] || g == phdrs[it];
  }

  /** What comes of a page: with nothing that spills, and for a page of the image. */
  lemma OutcomeOf(m: seq<Byte>, frame: nat, phdrs: seq<Phdr>, f: Inode, page: u64)
    requires UserPage(page) && Cleared(m, frame)
    ensures AnyContent(phdrs, page) <==> exists h :: h in phdrs && HasContent(h, page)
    ensures FirstBad(phdrs, f, page, |m| - frame) < |phdrs| ==> AnyContent(phdrs, page)
    ensures (forall h :: h in phdrs ==> !Spills(h, f, page)) ==>
              forall k :: 0 <= k <= |phdrs| ==> SameElsewhere(m, MemoryAfter(m, frame, phdrs[..k], f, page), frame)
    ensures Complete(phdrs, f) && NoClash(phdrs) ==>
              && FirstBad(phdrs, f, page, |m| - frame) == |phdrs|
              && IsImage(phdrs, f, page, MemoryAfter(m, frame, phdrs, f, page), frame)
              && SameElsewhere(m, MemoryAfter(m, frame, phdrs, f, page), frame)
  {
    hide Spills, SameElsewhere, IsImage, NoClash, InFile, FromFile, MemoryAfter, FirstBad, AssertFails, ReadFails, Delivered;
    var bad := FirstBad(phdrs, f, page, |m| - frame);
    assert bad < |phdrs| ==> phdrs[bad] in phdrs;
    if bad < |phdrs| {
      BadHasContent(phdrs[bad], f, page, |m| - frame);
    }
    if forall h :: h in phdrs ==> !Spills(h, f, page) {
      forall k | 0 <= k <= |phdrs| ensures SameElsewhere(m, MemoryAfter(m, frame, phdrs[..k], f, page), frame) {
        OnlyTheFrame(m, frame, phdrs[..k], f, page);
      }
    }
    if Complete(phdrs, f) && NoClash(phdrs) {
      LoadedPageIsImage(m, frame, phdrs, f, page);
      forall h | h in phdrs ensures !StopsAt(h, f, page, |m| - frame) && !ReadFails(h, f, page) {
        ReadsSucceed(h, f, page);
        ReadStays(h, f, page, |m| - frame);
      }
    }
  }

  lemma BadHasContent(h: Phdr, f: Inode, page: u64, room: int)
    requires page < USER_BREAK && (StopsAt(h, f, page, room) || ReadFails(h, f, page))
    ensures HasContent(h, page)
  {
  }

  lemma ReadStays(h: Phdr, f: Inode, page: u64, room: int)
    requires page < USER_BREAK && PAGE_SIZE <= room && Succeeds(h, f, page) && !Spills(h, f, page)
    ensures !StopsAt(h, f, page, room)
  {
  }

  /** The read for segment h stops the kernel, with this much memory from the frame on. */
  predicate StopsAt(h: Phdr, f: Inode, page: u64, room: int)
    requires page < USER_BREAK
  {
    FromFile(h, page) && (AssertFails(h, f, page) || OffsetOnPage(h, page) + Delivered(h, f, page) > room)
  }

  /** The first segment whose read stops the kernel or fails, or the number of segments. */
  function FirstBad(phdrs: seq<Phdr>, f: Inode, page: u64, room: int): (k: nat)
    requires page < USER_BREAK
    ensures k <= |phdrs|
    ensures forall j :: 0 <= j < k ==> !StopsAt(phdrs[j], f, page, room) && !ReadFails(phdrs[j], f, page)
    ensures k < |phdrs| ==> StopsAt(phdrs[k], f, page, room) || ReadFails(phdrs[k], f, page)
  {
    if phdrs == [] || StopsAt(phdrs[0], f, page, room) || ReadFails(phdrs[0], f, page) then 0
    else 1 + FirstBad(phdrs[1..], f, page, room)
  }

  lemma NothingDelivered(m: seq<Byte>, at: nat, f: Inode, offset: u32)
    requires at <= |m|
    ensures Overwrite(m, at, Bytes(f, offset, 0)) == m
  {
  }
}
