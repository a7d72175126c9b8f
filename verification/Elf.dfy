/** The ELF loader. */
module Elf {
  import opened Machine
  import opened PageTables
  import opened PhysicalMemory
  import opened ElfImage
  import opened ElfFiles
  import opened Vmm

  /** Zeroes the page and copies the file bytes that belong on it. */
  method FillPage(mem: Memory, phys: nat, data: seq<nat>, s: Segment, vaddr: nat, ghost k: nat)
    requires vaddr == PageAddress(s, k) && s.offset + s.filesz <= |data|
    modifies mem
    ensures mem.tables == old(mem.tables) - {phys}
    ensures PageHolds(PageBytes(mem.data, phys), data, s, k)
    ensures forall p {:trigger PageBytes(mem.data, p)} :: p != phys ==> PageBytes(mem.data, p) == PageBytes(old(mem.data), p)
  {
    mem.Zero(phys);
    var bytesFromStart := vaddr - s.Start();
    var filePageOffset := s.offset + bytesFromStart;
    var fileDataEnd := s.offset + s.filesz;
    if filePageOffset < fileDataEnd {
      var pageDataOffset := if bytesFromStart == 0 && s.PageOffset() > 0 then s.PageOffset() else 0;
      var copySize := PAGE_SIZE - pageDataOffset;
      if filePageOffset + copySize > fileDataEnd {
        copySize := fileDataEnd - filePageOffset;
      }
      if copySize > 0 {
        mem.CopyInto(phys, pageDataOffset, data[filePageOffset..filePageOffset + copySize]);
      }
    }
  }

  /** A frame of its own for a page, entered in the page table but not filled yet; 0 when pages run out. */
  method MapOwnFrame(vm: Paging, pagemap: nat, vaddr: nat, flags: nat) returns (phys: nat)
    requires vm.Valid() && IsTable(vm.shape, pagemap, 4) && IsFlags(flags)
    modifies vm.pmm`idx, vm.pmm`free, vm.pmm`held, vm.pmm.cache, vm.pmm.mem, vm`shape
    ensures vm.Valid() && IsTable(vm.shape, pagemap, 4) && |vm.pmm.free| + 4 >= |old(vm.pmm.free)|
    ensures SameBytes(old(vm.pmm.mem.data), vm.pmm.mem.data, old(vm.pmm.held)) && old(vm.pmm.held) <= vm.pmm.held
    ensures phys == 0 ==> |old(vm.pmm.free)| < 4 && OthersKept(old(vm.pmm.mem.tables), vm.pmm.mem.tables, pagemap, IndicesOf(vaddr))
    ensures phys != 0 ==>
      && phys in vm.pmm.held && phys !in old(vm.pmm.held) && FrameOf(phys + flags) == phys
      && TreeOk(vm.pmm.mem.tables - {phys}, vm.shape)
      && OthersKept(old(vm.pmm.mem.tables), vm.pmm.mem.tables - {phys}, pagemap, IndicesOf(vaddr))
      && PageEntry(vm.pmm.mem.tables - {phys}, pagemap, IndicesOf(vaddr)) == phys + flags
  {
    ghost var t0, s0 := vm.pmm.mem.tables, vm.shape;
    phys := vm.TakePage();
    ghost var t1 := vm.pmm.mem.tables;
    GrowthKeepsPagemap(t0, s0, t1, s0, pagemap, IndicesOf(vaddr));
    if phys == 0 {
      return;
    }
    var done := vm.MapPage(pagemap, vaddr, phys, flags);
    assert phys in vm.pmm.held - vm.shape.Keys;
    TakenAndMapped(t0, s0, t1, vm.pmm.mem.tables, vm.shape, pagemap, IndicesOf(vaddr), phys, flags, done);
    if !done {
      phys := 0;
    }
  }

  lemma TakenAndMapped(t: Tables, s: Shape, t1: Tables, t2: Tables, s2: Shape, pagemap: nat, v: Indices, phys: nat, flags: nat, done: bool)
    requires Growth(t, s, t1, s) && IsTable(s, pagemap, 4) && IsFrame(phys) && IsFlags(flags) && phys !in s2
    requires if done then Remapped(t1, s, t2, s2, pagemap, v, phys + flags) else Growth(t1, s, t2, s2)
    ensures IsTable(s2, pagemap, 4) && FrameOf(phys + flags) == phys
    ensures done ==>
      TreeOk(t2 - {phys}, s2) && OthersKept(t, t2 - {phys}, pagemap, v) && PageEntry(t2 - {phys}, pagemap, v) == phys + flags
    ensures !done ==> OthersKept(t, t2, pagemap, v)
  {
    FrameOfTagged(phys, flags);
    if done {
      RemappedOnePage(t, s, t1, s, t2, s2, pagemap, v, phys + flags, phys);
    } else {
      GrowthTwice(t, s, t1, s, t2, s2);
      GrowthKeepsPagemap(t, s, t2, s2, pagemap, v);
    }
  }

  /** One page: a frame for it, its entry in the page table, and its bytes. */
  method LoadPage(vm: Paging, pagemap: nat, data: seq<nat>, s: Segment, vaddr: nat, flags: nat, ghost k: nat) returns (ok: bool)
    requires vm.Valid() && IsTable(vm.shape, pagemap, 4) && flags == FlagsOf(s.flags)
    requires vaddr == PageAddress(s, k) && s.offset + s.filesz <= |data|
    modifies vm.pmm`idx, vm.pmm`free, vm.pmm`held, vm.pmm.cache, vm.pmm.mem, vm`shape
    ensures vm.Valid() && IsTable(vm.shape, pagemap, 4)
    ensures OthersKept(old(vm.pmm.mem.tables), vm.pmm.mem.tables, pagemap, IndicesOf(vaddr))
    ensures SameBytes(old(vm.pmm.mem.data), vm.pmm.mem.data, old(vm.pmm.held)) && old(vm.pmm.held) <= vm.pmm.held
    ensures if ok then PageLoaded(vm.pmm.mem.tables, vm.pmm.mem.data, vm.pmm.held, pagemap, data, s, k) else |old(vm.pmm.free)| < 4
    ensures |vm.pmm.free| + 4 >= |old(vm.pmm.free)|
  {
    var phys := MapOwnFrame(vm, pagemap, vaddr, flags);
    ok := phys != 0;
    if ok {
      FillPage(vm.pmm.mem, phys, data, s, vaddr, k);
    }
  }

  /** All pages of one segment. */
  method LoadSegment(vm: Paging, pagemap: nat, data: seq<nat>, i: nat) returns (ok: bool)
    requires |data| >= HEADER_SIZE && ImageOk(data) && i < HeaderCount(data) && Loads(data, i)
    requires vm.Valid() && IsTable(vm.shape, pagemap, 4)
    requires LoadedUpTo(vm.pmm.mem.tables, vm.pmm.mem.data, vm.pmm.held, pagemap, data, i, 0)
    modifies vm.pmm`idx, vm.pmm`free, vm.pmm`held, vm.pmm.cache, vm.pmm.mem, vm`shape
    ensures vm.Valid() && IsTable(vm.shape, pagemap, 4)
    ensures OutsideKept(old(vm.pmm.mem.tables), vm.pmm.mem.tables, pagemap, data)
    ensures SameBytes(old(vm.pmm.mem.data), vm.pmm.mem.data, old(vm.pmm.held)) && old(vm.pmm.held) <= vm.pmm.held
    ensures if ok then LoadedUpTo(vm.pmm.mem.tables, vm.pmm.mem.data, vm.pmm.held, pagemap, data, i + 1, 0)
            else |old(vm.pmm.free)| < 4 * SegmentAt(data, i).Pages()
    ensures ok ==> |vm.pmm.free| + 4 * SegmentAt(data, i).Pages() >= |old(vm.pmm.free)|
  {
    assert SegmentOk(data, i);
    var s := SegmentAt(data, i);
    var vaddr := s.Start();
    var vaddrEnd := (s.vaddr + s.memsz + PAGE_SIZE - 1) / PAGE_SIZE * PAGE_SIZE;
    EndIsRoundedUp(s);
    ghost var k := 0;
    while vaddr < vaddrEnd
      invariant k <= s.Pages() && vaddr == PageAddress(s, k)
      invariant vm.Valid() && IsTable(vm.shape, pagemap, 4)
      invariant OutsideKept(old(vm.pmm.mem.tables), vm.pmm.mem.tables, pagemap, data)
      invariant SameBytes(old(vm.pmm.mem.data), vm.pmm.mem.data, old(vm.pmm.held)) && old(vm.pmm.held) <= vm.pmm.held
      invariant LoadedUpTo(vm.pmm.mem.tables, vm.pmm.mem.data, vm.pmm.held, pagemap, data, i, k)
      invariant |vm.pmm.free| + 4 * k >= |old(vm.pmm.free)|
    {
      ghost var t, b, h := vm.pmm.mem.tables, vm.pmm.mem.data, vm.pmm.held;
      ok := LoadPage(vm, pagemap, data, s, vaddr, FlagsOf(s.flags), k);
      OutsideStaysKept(old(vm.pmm.mem.tables), t, vm.pmm.mem.tables, pagemap, data, i, k);
      if !ok {
        return;
      }
      LoadOneMore(t, b, h, vm.pmm.mem.tables, vm.pmm.mem.data, vm.pmm.held, pagemap, data, i, k);
      vaddr := vaddr + PAGE_SIZE;
      k := k + 1;
    }
    ok := true;
    SegmentDone(vm.pmm.mem.tables, vm.pmm.mem.data, vm.pmm.held, pagemap, data, i);
  }

  /** elf_load_binary; the entry point, or 0 when the header is not acceptable or pages run out. */
  method LoadBinary(vm: Paging, data: seq<nat>, pagemap: nat) returns (loaded: bool, entry: nat)
    requires |data| >= HEADER_SIZE && (GoodHeader(data) ==> ImageOk(data))
    requires vm.Valid() && IsTable(vm.shape, pagemap, 4)
    modifies vm.pmm`idx, vm.pmm`free, vm.pmm`held, vm.pmm.cache, vm.pmm.mem, vm`shape
    ensures vm.Valid() && IsTable(vm.shape, pagemap, 4)
    ensures OutsideKept(old(vm.pmm.mem.tables), vm.pmm.mem.tables, pagemap, data)
    ensures SameBytes(old(vm.pmm.mem.data), vm.pmm.mem.data, old(vm.pmm.held)) && old(vm.pmm.held) <= vm.pmm.held
    ensures !GoodHeader(data) ==> !loaded && vm.Now() == old(vm.Now()) && vm.pmm.mem.data == old(vm.pmm.mem.data)
    ensures GoodHeader(data) && |old(vm.pmm.free)| >= 4 * PagesUpTo(data, HeaderCount(data)) ==> loaded
    ensures if loaded then
              && entry == Entry(data)
              && (forall e {:trigger Little(e, 8)} :: 0 <= e < U64 && data[24..32] == Little(e, 8) ==> entry == e)
              && LoadedUpTo(vm.pmm.mem.tables, vm.pmm.mem.data, vm.pmm.held, pagemap, data, HeaderCount(data), 0)
            else entry == 0
  {
    if Field(data, 0, 4) != ELF_MAGIC {
      return false, 0;
    }
    if Field(data, 4, 1) != 2 {
      return false, 0;
    }
    if Field(data, 16, 2) != 2 {
      return false, 0;
    }
    loaded := LoadSegments(vm, pagemap, data);
    entry := if loaded then Field(data, 24, 8) else 0;
    EntryIsRead(data);
  }

  lemma EntryIsRead(data: seq<nat>)
    requires |data| >= 64
    ensures forall e {:trigger Little(e, 8)} :: 0 <= e < U64 && data[24..32] == Little(e, 8) ==> Field(data, 24, 8) == e
  {
    Limits();
    forall e | 0 <= e < U64 && data[24..32] == Little(e, 8)
      ensures Field(data, 24, 8) == e
    {
      FieldOfLittle(data, 24, e, 8);
    }
  }

  /** The loop over the program headers. */
  method LoadSegments(vm: Paging, pagemap: nat, data: seq<nat>) returns (loaded: bool)
    requires |data| >= HEADER_SIZE && ImageOk(data)
    requires vm.Valid() && IsTable(vm.shape, pagemap, 4)
    modifies vm.pmm`idx, vm.pmm`free, vm.pmm`held, vm.pmm.cache, vm.pmm.mem, vm`shape
    ensures vm.Valid() && IsTable(vm.shape, pagemap, 4)
    ensures OutsideKept(old(vm.pmm.mem.tables), vm.pmm.mem.tables, pagemap, data)
    ensures SameBytes(old(vm.pmm.mem.data), vm.pmm.mem.data, old(vm.pmm.held)) && old(vm.pmm.held) <= vm.pmm.held
    ensures |old(vm.pmm.free)| >= 4 * PagesUpTo(data, HeaderCount(data)) ==> loaded
    ensures loaded ==> LoadedUpTo(vm.pmm.mem.tables, vm.pmm.mem.data, vm.pmm.held, pagemap, data, HeaderCount(data), 0)
  {
    var i := 0;
    while i < HeaderCount(data)
      invariant 0 <= i <= HeaderCount(data)
      invariant vm.Valid() && IsTable(vm.shape, pagemap, 4)
      invariant OutsideKept(old(vm.pmm.mem.tables), vm.pmm.mem.tables, pagemap, data)
      invariant SameBytes(old(vm.pmm.mem.data), vm.pmm.mem.data, old(vm.pmm.held)) && old(vm.pmm.held) <= vm.pmm.held
      invariant LoadedUpTo(vm.pmm.mem.tables, vm.pmm.mem.data, vm.pmm.held, pagemap, data, i, 0)
      invariant |vm.pmm.free| + 4 * PagesUpTo(data, i) >= |old(vm.pmm.free)|
    {
      assert SegmentOk(data, i);
      PagesGrow(data, i + 1, HeaderCount(data));
      if SegmentAt(data, i).kind == PT_LOAD {
        var ok := LoadSegment(vm, pagemap, data, i);
        if !ok {
          return false;
        }
      } else {
        SegmentDone(vm.pmm.mem.tables, vm.pmm.mem.data, vm.pmm.held, pagemap, data, i);
      }
      i := i + 1;
    }
    loaded := true;
  }

  lemma SegmentDone(t: Tables, b: Bytes, h: set<nat>, pagemap: nat, data: seq<nat>, i: nat)
    requires |data| >= HEADER_SIZE && i < HeaderCount(data)
    requires LoadedUpTo(t, b, h, pagemap, data, i, if Loads(data, i) then SegmentAt(data, i).Pages() else 0)
    ensures LoadedUpTo(t, b, h, pagemap, data, i + 1, 0)
  {
    forall i', k' | 0 <= i' <= i + 1 && i' < HeaderCount(data) && 0 <= k' && i' < i + 1
      ensures LoadedAt(t, b, h, pagemap, data, i', k')
    {
    }
  }
}
