/**
 Two-level page tables of mm/vmm.c (32-bit paging, section 4.3 of the Intel SDM volume
 3A) in physical memory, and the map from pages to entries that the table walk refines.
 */
module Paging {

  type byte = x: int | 0 <= x < 256
  type u32 = x: int | 0 <= x < 0x1_0000_0000
  type Frame = f: seq<byte> | |f| == 4096 witness seq(4096, i => 0)

  const FRAME: nat := 4096
  const PRESENT: nat := 1
  const WRITE: nat := 2
  const USER: nat := 4

  // ---------------------------------------------------------------- words of a frame

  function Word(f: Frame, i: nat): u32
    requires i < 1024
  {
    f[4 * i] as int + 0x100 * f[4 * i + 1] as int + 0x1_0000 * f[4 * i + 2] as int + 0x100_0000 * f[4 * i + 3] as int
  }

  function Bytes(v: u32): (r: seq<byte>)
    ensures |r| == 4
  {
    [v % 0x100, v / 0x100 % 0x100, v / 0x1_0000 % 0x100, v / 0x100_0000]
  }

  function SetWord(f: Frame, i: nat, v: u32): Frame
    requires i < 1024
  {
    f[..4 * i] + Bytes(v) + f[4 * i + 4..]
  }

  lemma WordSet(f: Frame, i: nat, v: u32, j: nat)
    requires i < 1024 && j < 1024
    ensures Word(SetWord(f, i, v), j) == if i == j then v else Word(f, j)
  {
    var r := SetWord(f, i, v);
    assert forall k :: 0 <= k < 4 * i ==> r[k] == f[k];
    assert forall k :: 4 * i + 4 <= k < 4096 ==> r[k] == f[k];
    assert forall k :: 4 * i <= k < 4 * i + 4 ==> r[k] == Bytes(v)[k - 4 * i];
    FromBytes(v);
  }

  lemma FromBytes(v: u32)
    ensures v == v % 0x100 + 0x100 * (v / 0x100 % 0x100) + 0x1_0000 * (v / 0x1_0000 % 0x100)
            + 0x100_0000 * (v / 0x100_0000)
  {
  }

  function ZeroFrame(): Frame {
    seq(4096, _ => 0)
  }

  lemma ZeroWords(i: nat)
    requires i < 1024
    ensures Word(ZeroFrame(), i) == 0
  {
  }

  // ---------------------------------------------------------------- tables

  function Entry(mem: seq<Frame>, f: nat, i: nat): u32
    requires f < |mem| && i < 1024
  {
    Word(mem[f], i)
  }

  function WithEntry(mem: seq<Frame>, f: nat, i: nat, v: u32): (r: seq<Frame>)
    requires f < |mem| && i < 1024
    ensures |r| == |mem| && (forall g :: 0 <= g < |mem| && g != f ==> r[g] == mem[g])
    ensures forall j :: 0 <= j < 1024 ==> Entry(r, f, j) == if j == i then v else Entry(mem, f, j)
  {
    forall j | 0 <= j < 1024
      ensures Word(SetWord(mem[f], i, v), j) == if j == i then v else Word(mem[f], j)
    {
      WordSet(mem[f], i, v, j);
    }
    mem[f := SetWord(mem[f], i, v)]
  }

  predicate IsPresent(e: u32) {
    e % 2 == 1
  }

  function FrameOf(e: u32): nat {
    e / 4096
  }

  function FlagsOf(e: u32): nat {
    e % 4096
  }

  // A frame address with flags below it, as `addr | flags` builds it.
  function MakeEntry(frame: nat, flags: nat): (e: u32)
    requires frame < 0x10_0000 && flags < 4096
    ensures FrameOf(e) == frame && FlagsOf(e) == flags && (IsPresent(e) <==> flags % 2 == 1)
  {
    frame * 4096 + flags
  }

  // pd_index and pt_index of page number vp.
  function DirIndex(vp: nat): (r: nat)
    requires vp < 0x10_0000
    ensures r < 1024
  {
    vp / 1024
  }

  function TableIndex(vp: nat): (r: nat)
    ensures r < 1024
  {
    vp % 1024
  }

  // The frame of table d of the directory in frame pd.
  function TableFrame(mem: seq<Frame>, pd: nat, d: nat): nat
    requires pd < |mem| && d < 1024
  {
    FrameOf(Entry(mem, pd, d))
  }

  predicate HasTable(mem: seq<Frame>, pd: nat, d: nat)
    requires pd < |mem| && d < 1024
  {
    IsPresent(Entry(mem, pd, d))
  }

  /** The directory's tables are distinct frames of memory, apart from the directory. */
  ghost predicate SpaceOk(mem: seq<Frame>, pd: nat) {
    && pd < |mem|
    && (forall d :: 0 <= d < 1024 && HasTable(mem, pd, d) ==>
        TableFrame(mem, pd, d) < |mem| && TableFrame(mem, pd, d) != pd)
    && (forall c, d :: 0 <= c < d < 1024 && HasTable(mem, pd, c) && HasTable(mem, pd, d) ==>
          TableFrame(mem, pd, c) != TableFrame(mem, pd, d))
  }

  // The walk: the table entry of page vp, 0 where there is no table.
  ghost function Pte(mem: seq<Frame>, pd: nat, vp: nat): u32
    requires SpaceOk(mem, pd) && vp < 0x10_0000
  {
    if HasTable(mem, pd, DirIndex(vp)) then Entry(mem, TableFrame(mem, pd, DirIndex(vp)), TableIndex(vp)) else 0
  }

  // What a user-mode access needs of an entry, in the directory and in the table alike.
  predicate UserMay(e: u32) {
    IsPresent(e) && e / USER % 2 == 1
  }

  predicate MayWrite(e: u32) {
    e / WRITE % 2 == 1
  }

  /** User-mode code can read the page: both levels of the walk let it. */
  ghost predicate UserReadable(mem: seq<Frame>, pd: nat, vp: nat)
    requires SpaceOk(mem, pd) && vp < 0x10_0000
  {
    UserMay(Entry(mem, pd, DirIndex(vp))) && UserMay(Pte(mem, pd, vp))
  }

  /** User-mode code can write the page: both levels let it read and write. */
  ghost predicate UserWritable(mem: seq<Frame>, pd: nat, vp: nat)
    requires SpaceOk(mem, pd) && vp < 0x10_0000
  {
    UserReadable(mem, pd, vp) && MayWrite(Entry(mem, pd, DirIndex(vp))) && MayWrite(Pte(mem, pd, vp))
  }

  // The three lowest flags of an entry.
  lemma LowBits(e: u32)
    ensures IsPresent(e) <==> FlagsOf(e) % 2 == 1
    ensures MayWrite(e) <==> FlagsOf(e) / WRITE % 2 == 1
    ensures e / USER % 2 == 1 <==> FlagsOf(e) / USER % 2 == 1
  {
    var q, f := e / 4096, e % 4096;
    HalfOf(q, f);
    QuarterOf(q, f);
    ParityOf(2048 * q, f);
    ParityOf(1024 * q, f / 2);
    ParityOf(512 * q, f / 4);
  }

  lemma HalfOf(q: nat, f: nat)
    ensures (4096 * q + f) / 2 == 2 * (1024 * q) + f / 2
  {
  }

  lemma QuarterOf(q: nat, f: nat)
    ensures (4096 * q + f) / 4 == 2 * (512 * q) + f / 4
  {
  }

  lemma ParityOf(a: nat, b: nat)
    ensures (2 * a + b) % 2 == b % 2
  {
  }

  // Neither the directory nor one of its tables.
  ghost predicate Outside(mem: seq<Frame>, pd: nat, f: nat)
    requires pd < |mem|
  {
    f != pd && forall d :: 0 <= d < 1024 && HasTable(mem, pd, d) ==> TableFrame(mem, pd, d) != f
  }

  // ---------------------------------------------------------------- changes

  /** Writing one table entry changes the walk at that page only. */
  lemma SetPte(mem: seq<Frame>, pd: nat, vp: nat, v: u32)
    requires SpaceOk(mem, pd) && vp < 0x10_0000 && HasTable(mem, pd, DirIndex(vp))
    ensures var r := WithEntry(mem, TableFrame(mem, pd, DirIndex(vp)), TableIndex(vp), v);
            && SpaceOk(r, pd) && r[pd] == mem[pd]
            && forall q: nat :: q < 0x10_0000 ==> Pte(r, pd, q) == if q == vp then v else Pte(mem, pd, q)
  {
    hide Word, FrameOf, IsPresent;
    var f, t := TableFrame(mem, pd, DirIndex(vp)), TableIndex(vp);
    var r := WithEntry(mem, f, t, v);
    assert forall d :: 0 <= d < 1024 ==>
             HasTable(r, pd, d) == HasTable(mem, pd, d) && TableFrame(r, pd, d) == TableFrame(mem, pd, d);
    forall q: nat | q < 0x10_0000
      ensures Pte(r, pd, q) == if q == vp then v else Pte(mem, pd, q)
    {
      PageIndices(q, vp);
    }
  }

  lemma PageIndices(p: nat, q: nat)
    requires p < 0x10_0000 && q < 0x10_0000
    ensures p == q <==> DirIndex(p) == DirIndex(q) && TableIndex(p) == TableIndex(q)
  {
  }

  // The memory after get_page_table has created table d in the given frame.
  function WithTable(mem: seq<Frame>, pd: nat, d: nat, frame: nat, flags: nat): (r: seq<Frame>)
    requires pd < |mem| && d < 1024 && frame < |mem| && frame < 0x10_0000 && flags < 4096 && pd != frame
    ensures |r| == |mem| && forall g :: 0 <= g < |mem| && g != pd && g != frame ==> r[g] == mem[g]
  {
    WithEntry(Cleared(mem, frame), pd, d, MakeEntry(frame, flags))
  }

  function Cleared(mem: seq<Frame>, frame: nat): (r: seq<Frame>)
    requires frame < |mem|
    ensures |r| == |mem| && r[frame] == ZeroFrame() && forall g :: 0 <= g < |mem| && g != frame ==> r[g] == mem[g]
  {
    mem[frame := ZeroFrame()]
  }

  /** A new, cleared table changes the walk nowhere. */
  lemma NewTable(mem: seq<Frame>, pd: nat, d: nat, frame: nat, flags: nat)
    requires SpaceOk(mem, pd) && d < 1024 && !HasTable(mem, pd, d)
    requires frame < |mem| && frame < 0x10_0000 && Outside(mem, pd, frame) && flags < 4096 && flags % 2 == 1
    ensures var r := WithTable(mem, pd, d, frame, flags);
            && SpaceOk(r, pd) && HasTable(r, pd, d) && TableFrame(r, pd, d) == frame
            && (forall c :: 0 <= c < 1024 && c != d ==> Entry(r, pd, c) == Entry(mem, pd, c))
            && forall q: nat :: q < 0x10_0000 ==> Pte(r, pd, q) == Pte(mem, pd, q)
  {
    hide Word, FrameOf, IsPresent;
    var r := WithTable(mem, pd, d, frame, flags);
    assert forall c :: 0 <= c < 1024 && c != d ==> Entry(r, pd, c) == Entry(mem, pd, c);
    assert Entry(r, pd, d) == MakeEntry(frame, flags);
    assert forall c :: 0 <= c < 1024 && c != d ==>
             HasTable(r, pd, c) == HasTable(mem, pd, c) && TableFrame(r, pd, c) == TableFrame(mem, pd, c);
    assert HasTable(r, pd, d) && TableFrame(r, pd, d) == frame;
    forall q: nat | q < 0x10_0000
      ensures Pte(r, pd, q) == Pte(mem, pd, q)
    {
      if DirIndex(q) == d {
        ZeroWords(TableIndex(q));
      }
    }
  }

  // The flags of a directory entry: flags | PRESENT | WRITE.
  function TableFlags(flags: nat): (r: nat)
    ensures r < 4096 && r % 2 == 1
  {
    flags % 4096 / 4 * 4 + 3
  }

  // vmm_map_page_internal, given the frame for a new table.
  function Mapped(mem: seq<Frame>, pd: nat, vp: nat, v: u32, spare: nat, dirFlags: nat): (r: seq<Frame>)
    requires pd < |mem| && vp < 0x10_0000 && dirFlags < 4096
    requires if HasTable(mem, pd, DirIndex(vp)) then TableFrame(mem, pd, DirIndex(vp)) < |mem|
             else spare < |mem| && spare < 0x10_0000 && spare != pd
    ensures |r| == |mem|
  {
    if HasTable(mem, pd, DirIndex(vp)) then WithEntry(mem, TableFrame(mem, pd, DirIndex(vp)), TableIndex(vp), v)
    else WithEntry(WithTable(mem, pd, DirIndex(vp), spare, dirFlags), spare, TableIndex(vp), v)
  }

  /** Mapping a page updates the translation at that page only, also when a new table is
      created for it. */
  lemma MappedUpdates(mem: seq<Frame>, pd: nat, vp: nat, v: u32, spare: nat, dirFlags: nat)
    requires SpaceOk(mem, pd) && vp < 0x10_0000 && dirFlags < 4096 && dirFlags % 2 == 1
    requires HasTable(mem, pd, DirIndex(vp)) || (spare < |mem| && spare < 0x10_0000 && Outside(mem, pd, spare))
    ensures var r := Mapped(mem, pd, vp, v, spare, dirFlags);
            && SpaceOk(r, pd) && HasTable(r, pd, DirIndex(vp))
            && TableFrame(r, pd, DirIndex(vp))
            == (if HasTable(mem, pd, DirIndex(vp)) then TableFrame(mem, pd, DirIndex(vp)) else spare)
            && (forall c :: 0 <= c < 1024 && c != DirIndex(vp) ==> Entry(r, pd, c) == Entry(mem, pd, c))
            && forall q: nat :: q < 0x10_0000 ==> Pte(r, pd, q) == if q == vp then v else Pte(mem, pd, q)
  {
    hide Word, FrameOf, IsPresent, WithEntry, WithTable;
    if HasTable(mem, pd, DirIndex(vp)) {
      SetPte(mem, pd, vp, v);
    } else {
      NewTable(mem, pd, DirIndex(vp), spare, dirFlags);
      SetPte(WithTable(mem, pd, DirIndex(vp), spare, dirFlags), pd, vp, v);
    }
  }

  // PRESENT, WRITE and USER in the flags of a call.
  predicate Asks(flags: nat, user: bool, write: bool) {
    flags % 2 == 1 && (user ==> flags / 4 % 2 == 1) && (write ==> flags / 2 % 2 == 1)
  }

  // A new directory entry lets through what the flags ask for, and the kernel always.
  lemma NewTableAccess(frame: nat, flags: nat)
    requires frame < 0x10_0000
    ensures var e := MakeEntry(frame, TableFlags(flags));
            IsPresent(e) && MayWrite(e) && (UserMay(e) <==> flags / 4 % 2 == 1)
  {
    LowBits(MakeEntry(frame, TableFlags(flags)));
    LowBits(MakeEntry(0, flags % 4096));
    var q, f := flags / 4096, flags % 4096;
    QuarterOf(q, f);
    ParityOf(512 * q, f / 4);
    assert TableFlags(flags) / 4 == f / 4 && TableFlags(flags) / 2 == 2 * (f / 4) + 1;
    ParityOf(f / 4, 1);
  }

  // The table entry lets through exactly what the flags ask for.
  lemma NewEntryAccess(frame: nat, flags: nat)
    requires frame < 0x10_0000
    ensures var e := MakeEntry(frame, flags % 4096);
            (UserMay(e) <==> Asks(flags, true, false)) && (UserMay(e) && MayWrite(e) <==> Asks(flags, true, true))
  {
    LowBits(MakeEntry(frame, flags % 4096));
    var q, f := flags / 4096, flags % 4096;
    HalfOf(q, f);
    QuarterOf(q, f);
    ParityOf(2048 * q, f);
    ParityOf(1024 * q, f / 2);
    ParityOf(512 * q, f / 4);
  }

  /** After a page has been mapped, user mode can read it if and only if the flags say so and
      the table, if there was one, lets user mode through; and write it likewise.  A table
      first made for the kernel keeps user mode out of all its pages. */
  lemma MappedAccess(mem: seq<Frame>, pd: nat, vp: nat, frame: nat, flags: nat, spare: nat)
    requires SpaceOk(mem, pd) && vp < 0x10_0000 && frame < 0x10_0000
    requires HasTable(mem, pd, DirIndex(vp)) || (spare < |mem| && spare < 0x10_0000 && Outside(mem, pd, spare))
    ensures var r := Mapped(mem, pd, vp, MakeEntry(frame, flags % 4096), spare, TableFlags(flags));
            var d := Entry(mem, pd, DirIndex(vp));
            && SpaceOk(r, pd)
            && (UserReadable(r, pd, vp) <==> Asks(flags, true, false) && (!IsPresent(d) || UserMay(d)))
            && (UserWritable(r, pd, vp)
                <==> Asks(flags, true, true) && (!IsPresent(d) || (UserMay(d) && MayWrite(d))))
  {
    hide Word, FrameOf, Mapped, IsPresent, UserMay, MayWrite, Asks, Outside, Pte;
    var v := MakeEntry(frame, flags % 4096);
    MappedUpdates(mem, pd, vp, v, spare, TableFlags(flags));
    MappedDirectory(mem, pd, vp, v, spare, TableFlags(flags));
    NewEntryAccess(frame, flags);
    AsksMore(flags);
    if !HasTable(mem, pd, DirIndex(vp)) {
      NewTableAccess(spare, flags);
    }
  }

  /** Under a table that was made without USER, a page mapped with all three flags is closed to
      user mode. */
  lemma KernelTableExample(mem: seq<Frame>, pd: nat, vp: nat, frame: nat)
    requires SpaceOk(mem, pd) && vp < 0x10_0000 && frame < 0x10_0000
    requires FlagsOf(Entry(mem, pd, DirIndex(vp))) == 3
    ensures HasTable(mem, pd, DirIndex(vp))
    ensures var r := Mapped(mem, pd, vp, MakeEntry(frame, 7), 0, 7);
            SpaceOk(r, pd) && !UserReadable(r, pd, vp)
  {
    assert pd < |mem|;
    hide Word, FrameOf, Mapped, UserReadable, UserWritable, SpaceOk;
    LowBits(Entry(mem, pd, DirIndex(vp)));
    assert TableFlags(7) == 7;
    MappedAccess(mem, pd, vp, frame, 7, 0);
  }

  lemma AsksMore(flags: nat)
    ensures Asks(flags, true, true) ==> Asks(flags, true, false)
    ensures Asks(flags, true, false) ==> flags / 4 % 2 == 1
  {
  }

  // The directory entry of a page that has been mapped.
  lemma MappedDirectory(mem: seq<Frame>, pd: nat, vp: nat, v: u32, spare: nat, dirFlags: nat)
    requires SpaceOk(mem, pd) && vp < 0x10_0000 && dirFlags < 4096
    requires HasTable(mem, pd, DirIndex(vp)) || (spare < |mem| && spare < 0x10_0000 && Outside(mem, pd, spare))
    ensures Entry(Mapped(mem, pd, vp, v, spare, dirFlags), pd, DirIndex(vp))
            == if HasTable(mem, pd, DirIndex(vp)) then Entry(mem, pd, DirIndex(vp)) else MakeEntry(spare, dirFlags)
  {
    hide Word, FrameOf, IsPresent;
    var d := DirIndex(vp);
    var r := Mapped(mem, pd, vp, v, spare, dirFlags);
    if HasTable(mem, pd, d) {
      assert TableFrame(mem, pd, d) != pd;
      assert r[pd] == mem[pd];
    } else {
      assert r[pd] == WithTable(mem, pd, d, spare, dirFlags)[pd];
      assert Entry(WithTable(mem, pd, d, spare, dirFlags), pd, d) == MakeEntry(spare, dirFlags);
    }
  }

  // Frames that mapping leaves alone.
  lemma MappedFrame(mem: seq<Frame>, pd: nat, vp: nat, v: u32, spare: nat, dirFlags: nat, f: nat)
    requires SpaceOk(mem, pd) && vp < 0x10_0000 && dirFlags < 4096 && f < |mem| && Outside(mem, pd, f)
    requires HasTable(mem, pd, DirIndex(vp)) || (spare < |mem| && spare < 0x10_0000 && spare != pd && f != spare)
    ensures Mapped(mem, pd, vp, v, spare, dirFlags)[f] == mem[f]
  {
  }
}
