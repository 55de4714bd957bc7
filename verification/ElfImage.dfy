/**
 What the loader of kernel/elf.c puts on each page of a segment, and what the program
 header (System V gABI, chapter 5) asks for.
 */
module ElfImage {
  import opened Paging
  import opened Pmm
  import opened Vmm
  import opened TaskSpace

  const PT_LOAD: nat := 1
  const USER_START: nat := 0x800_0000
  const USER_END: nat := 0xC000_0000

  datatype Header = Header(ident: seq<byte>, etype: nat, machine: nat, entry: u32)

  datatype Segment = Segment(ptype: u32, offset: u32, vaddr: u32, filesz: u32, memsz: u32, pflags: u32)

  // elf_validate.
  predicate Accepts(h: Header)
    requires |h.ident| == 16
  {
    h.ident[..4] == [0x7F, 0x45, 0x4C, 0x46] && h.ident[4] == 1 && h.ident[5] == 1 && h.etype == 2 && h.machine == 3
  }

  // ---------------------------------------------------------------- the file's headers

  function Half(file: seq<byte>, i: nat): (r: nat)
    requires i + 2 <= |file|
    ensures r < 0x1_0000
  {
    file[i] as int + 0x100 * file[i + 1] as int
  }

  function Full(file: seq<byte>, i: nat): u32
    requires i + 4 <= |file|
  {
    Half(file, i) + 0x1_0000 * Half(file, i + 2)
  }

  // elf32_ehdr_t and elf32_phdr_t as they lie in the file.
  function HeaderOf(file: seq<byte>): (r: Header)
    requires |file| >= 52
    ensures |r.ident| == 16
  {
    Header(file[..16], Half(file, 16), Half(file, 18), Full(file, 24))
  }

  function SegmentAt(file: seq<byte>, i: nat): Segment
    requires i + 32 <= |file|
  {
    Segment(Full(file, i), Full(file, i + 4), Full(file, i + 8), Full(file, i + 16), Full(file, i + 20),
            Full(file, i + 24))
  }

  // The file holds its header and all its program headers.
  predicate HeadersIn(file: seq<byte>) {
    |file| >= 52 && Full(file, 28) + 32 * Half(file, 44) <= |file|
  }

  function SegmentsOf(file: seq<byte>): (r: seq<Segment>)
    requires HeadersIn(file)
    ensures |r| == Half(file, 44)
  {
    seq(Half(file, 44), i requires 0 <= i < Half(file, 44) => SegmentAt(file, Full(file, 28) + 32 * i))
  }

  // The bytes by which a 32-bit little-endian i386 executable is known.
  predicate Executable(file: seq<byte>)
    requires |file| >= 52
  {
    file[..6] == [0x7F, 0x45, 0x4C, 0x46, 1, 1] && file[16..20] == [2, 0, 3, 0]
  }

  /** elf_validate accepts a file by ten of its bytes. */
  lemma AcceptsBytes(file: seq<byte>)
    requires |file| >= 52
    ensures Accepts(HeaderOf(file)) <==> Executable(file)
  {
    var h := HeaderOf(file);
    assert file[..6] == h.ident[..4] + [h.ident[4], h.ident[5]];
    assert file[16..20] == [file[16], file[17], file[18], file[19]];
    HalfIs(file[16], file[17], 2);
    HalfIs(file[18], file[19], 3);
  }

  lemma HalfIs(a: byte, b: byte, x: byte)
    ensures a as int + 0x100 * b as int == x <==> a == x && b == 0
  {
  }

  // elf32_phdr_t, member by member.
  function PhdrBytes(s: Segment, paddr: u32, align: u32): (r: seq<byte>)
    ensures |r| == 32
  {
    Bytes(s.ptype) + Bytes(s.offset) + Bytes(s.vaddr) + Bytes(paddr) + Bytes(s.filesz) + Bytes(s.memsz)
    + Bytes(s.pflags) + Bytes(align)
  }

  lemma FullOfBytes(file: seq<byte>, i: nat, v: u32)
    requires i + 4 <= |file| && file[i..i + 4] == Bytes(v)
    ensures Full(file, i) == v
  {
    var b := file[i..i + 4];
    assert b[0] == file[i] && b[1] == file[i + 1] && b[2] == file[i + 2] && b[3] == file[i + 3];
    FromBytes(v);
  }

  /** A program header is read back as it was laid out. */
  lemma PhdrRoundTrip(file: seq<byte>, i: nat, s: Segment, paddr: u32, align: u32)
    requires i + 32 <= |file| && file[i..i + 32] == PhdrBytes(s, paddr, align)
    ensures SegmentAt(file, i) == s
  {
    var p := PhdrBytes(s, paddr, align);
    hide Bytes, Full;
    assert p[0..4] == Bytes(s.ptype) && p[4..8] == Bytes(s.offset) && p[8..12] == Bytes(s.vaddr);
    assert p[16..20] == Bytes(s.filesz) && p[20..24] == Bytes(s.memsz) && p[24..28] == Bytes(s.pflags);
    hide PhdrBytes;
    PhdrPart(file, i, p, 0);
    PhdrPart(file, i, p, 4);
    PhdrPart(file, i, p, 8);
    PhdrPart(file, i, p, 16);
    PhdrPart(file, i, p, 20);
    PhdrPart(file, i, p, 24);
    FullOfBytes(file, i, s.ptype);
    FullOfBytes(file, i + 4, s.offset);
    FullOfBytes(file, i + 8, s.vaddr);
    FullOfBytes(file, i + 16, s.filesz);
    FullOfBytes(file, i + 20, s.memsz);
    FullOfBytes(file, i + 24, s.pflags);
  }

  lemma PhdrPart(file: seq<byte>, i: nat, p: seq<byte>, k: nat)
    requires |p| == 32 && k + 4 <= 32 && i + 32 <= |file| && file[i..i + 32] == p
    ensures file[i + k..i + k + 4] == p[k..k + 4]
  {
    var a, b := file[i + k..i + k + 4], file[i..i + 32][k..k + 4];
    assert forall j :: 0 <= j < 4 ==> a[j] == b[j];
  }

  // ---------------------------------------------------------------- pages of a segment

  // PRESENT, USER and, with PF_W, WRITE.
  function SegmentFlags(s: Segment): (r: nat)
    ensures r < 4096 && r % 2 == 1
  {
    if s.pflags / 2 % 2 == 1 then 7 else 5
  }

  function StartPage(s: Segment): nat {
    s.vaddr / FRAME
  }

  function PageCount(s: Segment): (r: nat) {
    (s.vaddr + s.memsz + FRAME - 1) / FRAME - s.vaddr / FRAME
  }

  /** A segment takes exactly the pages on which its bytes lie; an empty one takes none, or
      one if its address is not page-aligned. */
  lemma PagesOfBytes(s: Segment, vp: nat)
    ensures s.memsz > 0 ==>
              (StartPage(s) <= vp < StartPage(s) + PageCount(s)
               <==> exists a: nat :: a < s.memsz && LiesOn(s, a, vp))
    ensures s.memsz == 0 ==> PageCount(s) == if s.vaddr % 4096 == 0 then 0 else 1
  {
    if s.memsz > 0 && StartPage(s) <= vp < StartPage(s) + PageCount(s) {
      var a: nat := if vp == StartPage(s) then 0 else vp * 4096 - s.vaddr;
      assert a < s.memsz && LiesOn(s, a, vp);
    }
  }

  // Byte a of the segment lies on page vp.
  predicate LiesOn(s: Segment, a: nat, vp: nat) {
    (s.vaddr + a) / 4096 == vp
  }

  // The segment lies in the task's own part of the address space, its bytes in the file.
  ghost predicate Placed(s: Segment, file: seq<byte>) {
    && USER_START <= s.vaddr && s.vaddr + s.memsz <= USER_END
    && s.offset + s.filesz <= |file| <= MEMORY_LIMIT
  }

  lemma PlacedPages(s: Segment, file: seq<byte>, k: nat)
    requires Placed(s, file) && k < PageCount(s)
    ensures UserPage(StartPage(s) + k)
  {
  }

  // Byte a of the segment as its header specifies it.
  function SegmentByte(file: seq<byte>, s: Segment, a: int): byte {
    if 0 <= a < s.filesz && s.offset + a < |file| then file[s.offset + a] else 0
  }

  // Page k of the segment as the loader fills it: an unaligned first page stays zero.
  function PageImage(file: seq<byte>, s: Segment, k: nat): (r: Frame)
    ensures forall j :: 0 <= j < 4096 ==> r[j] == ImageByte(file, s, k, j)
  {
    seq(4096, j => ImageByte(file, s, k, j))
  }

  function ImageByte(file: seq<byte>, s: Segment, k: nat, j: int): byte {
    if k == 0 && s.vaddr % FRAME != 0 then 0 else SegmentByte(file, s, k * FRAME + j - s.vaddr % FRAME)
  }

  // memcpy into a page.
  function Copied(page: Frame, start: nat, data: seq<byte>): Frame
    requires start + |data| <= 4096
  {
    page[..start] + data + page[start + |data|..]
  }

  /** What memset and memcpy leave on page k, with the loader's own 32-bit arithmetic. */
  method FilledPage(file: seq<byte>, s: Segment, k: nat) returns (page: Frame)
    requires Placed(s, file) && k < PageCount(s)
    ensures page == PageImage(file, s, k)
  {
    page := ZeroFrame();
    var userVaddr := s.vaddr / FRAME * FRAME + k * FRAME;
    var offset: nat := (userVaddr - s.vaddr) % 0x1_0000_0000;
    OffsetInSegment(s, file, k);
    if offset < s.filesz {
      var start := if offset > 0 then 0 else s.vaddr % FRAME;
      var size: nat := FRAME - start;
      if size > s.filesz - offset {
        size := s.filesz - offset;
      }
      page := Copied(page, start, file[s.offset + offset..s.offset + offset + size]);
      assert start == 0;
    }
    assert forall j :: 0 <= j < 4096 ==> page[j] == PageImage(file, s, k)[j];
  }

  // Unsigned underflow makes the offset of an unaligned first page larger than any file.
  lemma OffsetInSegment(s: Segment, file: seq<byte>, k: nat)
    requires Placed(s, file) && k < PageCount(s)
    ensures var o := (s.vaddr / FRAME * FRAME + k * FRAME - s.vaddr) % 0x1_0000_0000;
            if k == 0 && s.vaddr % FRAME != 0 then o >= s.filesz else o == k * FRAME - s.vaddr % FRAME
  {
  }

  // ---------------------------------------------------------------- segments in memory

  // Page vp of the task is backed by a plain frame with these contents and flags.
  ghost predicate PageIn(mem: seq<Frame>, kpd: nat, tpd: nat, free: set<nat>, vp: nat, contents: Frame, flags: nat)
    requires SpaceOk(mem, kpd) && SpaceOk(mem, tpd) && vp < PAGES
  {
    var e := Pte(mem, tpd, vp);
    Plain(mem, kpd, tpd, free, FrameOf(e)) && mem[FrameOf(e)] == contents && FlagsOf(e) == flags
  }

  // The first n pages of the segment are in place.
  ghost predicate SegmentIn(mem: seq<Frame>, kpd: nat, tpd: nat, free: set<nat>, file: seq<byte>, s: Segment, n: nat)
    requires SpaceOk(mem, kpd) && SpaceOk(mem, tpd) && Placed(s, file) && n <= PageCount(s)
  {
    forall k: nat :: k < n ==> PageOf(mem, kpd, tpd, free, file, s, k)
  }

  // Page k of the segment is in place.
  ghost predicate PageOf(mem: seq<Frame>, kpd: nat, tpd: nat, free: set<nat>, file: seq<byte>, s: Segment, k: nat)
    requires SpaceOk(mem, kpd) && SpaceOk(mem, tpd)
  {
    UserPage(StartPage(s) + k) && PageIn(mem, kpd, tpd, free, StartPage(s) + k, PageImage(file, s, k), SegmentFlags(s))
  }

  // Page vp holds part of the segment.
  predicate Covers(s: Segment, n: nat, vp: nat) {
    StartPage(s) <= vp < StartPage(s) + n
  }

  // A page stays in place while other pages of the task are mapped.
  lemma PageStays(a: seq<Frame>, fa: set<nat>, b: seq<Frame>, fb: set<nat>, kpd: nat, tpd: nat, vp: nat,
                  contents: Frame, flags: nat)
    requires SpaceOk(a, kpd) && SpaceOk(a, tpd) && SpaceOk(b, kpd) && SpaceOk(b, tpd) && vp < PAGES
    requires PageIn(a, kpd, tpd, fa, vp, contents, flags) && Kept(a, fa, b, fb, kpd, tpd, {})
    requires Pte(b, tpd, vp) == Pte(a, tpd, vp)
    ensures PageIn(b, kpd, tpd, fb, vp, contents, flags)
  {
    hide Pte, SpaceOk, Outside;
  }

  lemma SegmentStays(a: seq<Frame>, fa: set<nat>, b: seq<Frame>, fb: set<nat>, kpd: nat, tpd: nat, file: seq<byte>,
                     s: Segment, n: nat)
    requires SpaceOk(a, kpd) && SpaceOk(a, tpd) && SpaceOk(b, kpd) && SpaceOk(b, tpd) && Placed(s, file)
             && n <= PageCount(s)
    requires SegmentIn(a, kpd, tpd, fa, file, s, n) && Kept(a, fa, b, fb, kpd, tpd, {})
    requires forall q: nat :: UserPage(q) && Covers(s, n, q) ==> Pte(b, tpd, q) == Pte(a, tpd, q)
    ensures SegmentIn(b, kpd, tpd, fb, file, s, n)
  {
    hide Pte, SpaceOk, Kept, PageIn, SegmentFlags;
    forall k: nat | k < n
      ensures PageOf(b, kpd, tpd, fb, file, s, k)
    {
      assert PageOf(a, kpd, tpd, fa, file, s, k);
      assert Covers(s, n, StartPage(s) + k);
      PageStays(a, fa, b, fb, kpd, tpd, StartPage(s) + k, PageImage(file, s, k), SegmentFlags(s));
    }
  }

  // ---------------------------------------------------------------- the task's view

  // The byte that the task reads at a mapped user address.
  ghost function UserByte(mem: seq<Frame>, tpd: nat, va: nat): byte
    requires SpaceOk(mem, tpd) && va < 0x1_0000_0000 && FrameOf(Pte(mem, tpd, va / FRAME)) < |mem|
  {
    mem[FrameOf(Pte(mem, tpd, va / FRAME))][va % FRAME]
  }

  // The task reads the byte of a loaded page's image.
  lemma LoadedByte(mem: seq<Frame>, kpd: nat, tpd: nat, free: set<nat>, file: seq<byte>, s: Segment, k: nat)
    requires SpaceOk(mem, kpd) && SpaceOk(mem, tpd) && Placed(s, file) && k < s.memsz
    requires SegmentIn(mem, kpd, tpd, free, file, s, PageCount(s))
    ensures var vp := (s.vaddr + k) / FRAME;
            && FrameOf(Pte(mem, tpd, vp)) < |mem| && FlagsOf(Pte(mem, tpd, vp)) == SegmentFlags(s)
            && UserByte(mem, tpd, s.vaddr + k)
               == if s.vaddr % FRAME != 0 && k < FRAME - s.vaddr % FRAME then 0 else SegmentByte(file, s, k)
  {
    hide Pte, SpaceOk, Outside, SegmentByte, SegmentFlags, FrameOf, FlagsOf;
    var va := s.vaddr + k;
    var n := va / FRAME - StartPage(s);
    assert StartPage(s) + n == va / FRAME && n < PageCount(s);
    assert PageOf(mem, kpd, tpd, free, file, s, n);
    assert n * FRAME + va % FRAME - s.vaddr % FRAME == k;
    assert PageImage(file, s, n)[va % FRAME] == if n == 0 && s.vaddr % FRAME != 0 then 0 else SegmentByte(file, s, k);
  }

  // The task reads b at byte k of the segment, from a page with the segment's flags.
  ghost predicate Reads(mem: seq<Frame>, tpd: nat, s: Segment, k: nat, b: byte)
    requires SpaceOk(mem, tpd) && s.vaddr + k < 0x1_0000_0000
  {
    FrameOf(Pte(mem, tpd, (s.vaddr + k) / FRAME)) < |mem| && UserByte(mem, tpd, s.vaddr + k) == b
  }

  // User-mode code of the task can read byte k, and write it exactly as PF_W says.
  ghost predicate Accessible(mem: seq<Frame>, tpd: nat, s: Segment, k: nat)
    requires SpaceOk(mem, tpd) && s.vaddr + k < 0x1_0000_0000
  {
    var vp := (s.vaddr + k) / FRAME;
    UserReadable(mem, tpd, vp) && (UserWritable(mem, tpd, vp) <==> s.pflags / 2 % 2 == 1)
  }

  lemma FlagBits(e: u32, s: Segment)
    requires FlagsOf(e) == SegmentFlags(s)
    ensures UserMay(e) && (MayWrite(e) <==> s.pflags / 2 % 2 == 1)
  {
    LowBits(e);
  }

  // The table of byte k lets user-mode code through, for reading and writing.
  ghost predicate TableOpen(mem: seq<Frame>, tpd: nat, s: Segment, k: nat)
    requires tpd < |mem|
  {
    s.vaddr + k < 0x1_0000_0000 &&
    var d := DirIndex((s.vaddr + k) / FRAME);
    UserMay(Entry(mem, tpd, d)) && MayWrite(Entry(mem, tpd, d))
  }

  ghost predicate TablesOpen(mem: seq<Frame>, tpd: nat, s: Segment)
    requires tpd < |mem|
  {
    forall k: nat :: k < s.memsz ==> TableOpen(mem, tpd, s, k)
  }

  /** The task's memory is the image that the program header specifies -- file bytes, then
      zeros -- if and only if the segment is page-aligned or the file bytes that belong on
      the unaligned first page are all zero; user-mode code can read all of it, and write it
      exactly with PF_W. */
  lemma ImageIsRight(mem: seq<Frame>, kpd: nat, tpd: nat, free: set<nat>, file: seq<byte>, s: Segment)
    requires SpaceOk(mem, kpd) && SpaceOk(mem, tpd) && Placed(s, file) && s.filesz <= s.memsz
    requires SegmentIn(mem, kpd, tpd, free, file, s, PageCount(s)) && TablesOpen(mem, tpd, s)
    ensures forall k: nat :: k < s.memsz ==> Accessible(mem, tpd, s, k)
    ensures (forall k: nat :: k < s.memsz ==> Reads(mem, tpd, s, k, SegmentByte(file, s, k)))
            <==> s.vaddr % FRAME == 0
                 || forall k: nat :: k < s.filesz && k < FRAME - s.vaddr % FRAME ==> SegmentByte(file, s, k) == 0
  {
    hide Pte, SpaceOk, SegmentIn, FlagsOf, SegmentFlags, UserMay, MayWrite;
    SpaceBounds(mem, tpd, 0);
    var r := s.vaddr % FRAME;
    forall k: nat | k < s.memsz
      ensures Accessible(mem, tpd, s, k)
      ensures Reads(mem, tpd, s, k, if r != 0 && k < FRAME - r then 0 else SegmentByte(file, s, k))
    {
      LoadedByte(mem, kpd, tpd, free, file, s, k);
      FlagBits(Pte(mem, tpd, (s.vaddr + k) / FRAME), s);
      assert TableOpen(mem, tpd, s, k);
    }
    hide Accessible;
    if r != 0 && exists k: nat :: k < s.filesz && k < FRAME - r && SegmentByte(file, s, k) != 0 {
      var k: nat :| k < s.filesz && k < FRAME - r && SegmentByte(file, s, k) != 0;
      assert !Reads(mem, tpd, s, k, SegmentByte(file, s, k));
    }
  }

  /** One byte 0x90 at address 0x8048100: the loaded task reads 0 there. */
  lemma UnalignedExample(mem: seq<Frame>, kpd: nat, tpd: nat, free: set<nat>, pflags: u32)
    requires SpaceOk(mem, kpd) && SpaceOk(mem, tpd)
    requires var s := Segment(PT_LOAD, 0, 0x804_8100, 1, 1, pflags);
             Placed(s, [0x90]) && SegmentIn(mem, kpd, tpd, free, [0x90], s, PageCount(s))
    ensures var s := Segment(PT_LOAD, 0, 0x804_8100, 1, 1, pflags);
            Reads(mem, tpd, s, 0, 0) && SegmentByte([0x90], s, 0) == 0x90
  {
    hide SpaceOk, SegmentIn, Pte;
    LoadedByte(mem, kpd, tpd, free, [0x90], Segment(PT_LOAD, 0, 0x804_8100, 1, 1, pflags), 0);
  }
}
