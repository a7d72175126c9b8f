/** vmm_map, vmm_unmap, virt_to_phys and vmm_new_pagemap on pages of physical memory. */
module Vmm {
  import opened Machine
  import opened PageTables
  import opened PagemapRuns
  import opened PhysicalMemory
  import opened Pmm

  class Paging {
    const pmm: Allocator
    var kernelPagemap: nat

    // Every page used as a table, and where it hangs.
    ghost var shape: Shape

    ghost predicate Valid()
      reads this, pmm, pmm.pages, pmm.cache, pmm.mem
    {
      && pmm.Valid() && TreeOk(pmm.mem.tables, shape) && shape.Keys <= pmm.held
      && (kernelPagemap != 0 ==> IsTable(shape, kernelPagemap, 4))
    }

    /** Before vmm_init there are no tables. */
    constructor (a: Allocator)
      requires a.Valid()
      ensures pmm == a && kernelPagemap == 0 && shape == map[] && Valid()
    {
      pmm, kernelPagemap, shape := a, 0, map[];
    }

    ghost function Now(): State
      reads this, pmm.mem
    {
      State(pmm.mem.tables, shape, kernelPagemap)
    }

    ghost predicate GrownSince(t: Tables, s: Shape)
      reads this, pmm.mem
    {
      Growth(t, s, pmm.mem.tables, shape)
    }

    /** virt_to_phys */
    method VirtToPhys(pagemap: nat, virt: nat) returns (phys: nat)
      ensures phys == Translate(pmm.mem.tables, pagemap, IndicesOf(virt))
    {
      var v := IndicesOf(virt);
      var t := pmm.mem.tables;
      if !Present(EntryAt(t, pagemap, v[3])) {
        return 0;
      }
      var pml3 := FrameOf(EntryAt(t, pagemap, v[3]));
      if !Present(EntryAt(t, pml3, v[2])) {
        return 0;
      }
      var pml2 := FrameOf(EntryAt(t, pml3, v[2]));
      if !Present(EntryAt(t, pml2, v[1])) {
        return 0;
      }
      var pml1 := FrameOf(EntryAt(t, pml2, v[1]));
      phys := FrameOf(EntryAt(t, pml1, v[0]));
      assert FrameOf(EntryFrom(t, pml2, 2, v)) == phys;
      assert FrameOf(0) == 0;
    }

    method SetEntry(p: nat, i: nat, e: nat)
      requires i < SLOTS
      modifies pmm.mem`tables
      ensures pmm.mem.tables == WithEntry(old(pmm.mem.tables), p, i, e)
    {
      var t := pmm.mem.tables;
      pmm.mem.tables := WithEntry(t, p, i, e);
    }

    /** A page that is no table yet, full of zeros; 0 when there is none. */
    method FreshPage() returns (c: nat)
      requires Valid()
      modifies pmm`idx, pmm`free, pmm`held, pmm.cache, pmm.mem
      ensures pmm.Valid() && |pmm.free| + 1 >= |old(pmm.free)|
      ensures c == 0 <==> old(pmm.free) == []
      ensures c == 0 ==> pmm.held == old(pmm.held) && pmm.mem.tables == old(pmm.mem.tables)
      ensures c != 0 ==>
        IsFrame(c) && c !in old(pmm.held) && pmm.held == old(pmm.held) + {c} && pmm.mem.tables == old(pmm.mem.tables) - {c}
      ensures SameBytes(old(pmm.mem.data), pmm.mem.data, old(pmm.held)) && (c != 0 ==> PageBytes(pmm.mem.data, c) == [])
    {
      c := pmm.RequestPage();
    }

    /** A page for bytes: it is no table, and taking it changes no translation. */
    method TakePage() returns (c: nat)
      requires Valid()
      modifies pmm`idx, pmm`free, pmm`held, pmm.cache, pmm.mem
      ensures Valid() && |pmm.free| + 1 >= |old(pmm.free)| && GrownSince(old(pmm.mem.tables), shape)
      ensures c == 0 <==> old(pmm.free) == []
      ensures c == 0 ==> pmm.held == old(pmm.held)
      ensures c != 0 ==> IsFrame(c) && c !in old(pmm.held) && pmm.held == old(pmm.held) + {c}
      ensures SameBytes(old(pmm.mem.data), pmm.mem.data, old(pmm.held))
    {
      c := FreshPage();
      if c == 0 {
        NoGrowth(pmm.mem.tables, shape);
      } else {
        DropIsGrowth(old(pmm.mem.tables), shape, c);
      }
    }

    /** The table behind slot `i` of `p`, made from a fresh page if there is none; 0 when there is no page for it. */
    method Descend(p: nat, i: nat) returns (c: nat)
      requires Valid() && p in shape && shape[p].level > 1 && i < SLOTS
      modifies pmm`idx, pmm`free, pmm`held, pmm.cache, pmm.mem, `shape
      ensures Valid() && GrownSince(old(pmm.mem.tables), old(shape))
      ensures c == 0 ==> old(pmm.free) == []
      ensures c != 0 ==>
        && IsTable(shape, c, old(shape)[p].level - 1)
        && Present(EntryAt(pmm.mem.tables, p, i)) && FrameOf(EntryAt(pmm.mem.tables, p, i)) == c
        && SlotsAfter(old(pmm.mem.tables), old(shape), pmm.mem.tables, p, i)
      ensures |pmm.free| + 1 >= |old(pmm.free)|
      ensures old(pmm.held) <= pmm.held && pmm.held - shape.Keys == old(pmm.held) - old(shape).Keys
      ensures SameBytes(old(pmm.mem.data), pmm.mem.data, old(pmm.held))
    {
      NoGrowth(pmm.mem.tables, shape);
      if Present(EntryAt(pmm.mem.tables, p, i)) {
        PresentSlot(pmm.mem.tables, shape, p, i);
      } else {
        c := AddTable(p, i);
        if c == 0 {
          return;
        }
      }
      c := FrameOf(EntryAt(pmm.mem.tables, p, i));
      assert SlotOk(pmm.mem.tables, shape, p, i);
    }

    method AddTable(p: nat, i: nat) returns (c: nat)
      requires Valid() && p in shape && shape[p].level > 1 && i < SLOTS && !Present(EntryAt(pmm.mem.tables, p, i))
      modifies pmm`idx, pmm`free, pmm`held, pmm.cache, pmm.mem, `shape
      ensures Valid() && GrownSince(old(pmm.mem.tables), old(shape))
      ensures c == 0 ==> old(pmm.free) == []
      ensures c != 0 ==>
        && shape == old(shape)[c := Node(old(shape)[p].level - 1, p, i)] && EntryAt(pmm.mem.tables, p, i) == c + 7
        && FrameOf(c + 7) == c && Present(c + 7)
        && SlotsAfter(old(pmm.mem.tables), old(shape), pmm.mem.tables, p, i)
      ensures |pmm.free| + 1 >= |old(pmm.free)|
      ensures old(pmm.held) <= pmm.held && pmm.held - shape.Keys == old(pmm.held) - old(shape).Keys
      ensures SameBytes(old(pmm.mem.data), pmm.mem.data, old(pmm.held))
    {
      c := FreshPage();
      if c == 0 {
        NoGrowth(pmm.mem.tables, shape);
        return;
      }
      Attach(p, i, c, old(pmm.mem.tables));
    }

    /** Page `c` of zeros is entered in slot `i` of `p`. */
    method Attach(p: nat, i: nat, c: nat, ghost before: Tables)
      requires CanHang(before, shape, p, i, c) && pmm.mem.tables == before - {c}
      modifies pmm.mem`tables, `shape
      ensures GrownSince(before, old(shape)) && SlotsAfter(before, old(shape), pmm.mem.tables, p, i)
      ensures shape == old(shape)[c := Node(old(shape)[p].level - 1, p, i)] && EntryAt(pmm.mem.tables, p, i) == c + 7
      ensures FrameOf(c + 7) == c && Present(c + 7)
    {
      HangIsGrowth(before, shape, p, i, c);
      HangAddsSlot(before, shape, p, i, c);
      HungEntry(c);
      SetEntry(p, i, c + 7);
      shape := shape[c := Node(shape[p].level - 1, p, i)];
    }

    /** Walks down to the last-level table of `v`, adding tables on the way; 0 when pages run out. */
    method WalkDown(pagemap: nat, v: Indices) returns (pml1: nat)
      requires Valid() && IsTable(shape, pagemap, 4)
      modifies pmm`idx, pmm`free, pmm`held, pmm.cache, pmm.mem, `shape
      ensures Valid() && GrownSince(old(pmm.mem.tables), old(shape))
      ensures if pml1 == 0 then |old(pmm.free)| < 3
              else Leaf(pmm.mem.tables, pagemap, 4, v) == pml1 && SlotsAfter(old(pmm.mem.tables), old(shape), pmm.mem.tables, pagemap, v[3])
      ensures |pmm.free| + 3 >= |old(pmm.free)|
      ensures old(pmm.held) <= pmm.held && pmm.held - shape.Keys == old(pmm.held) - old(shape).Keys
      ensures SameBytes(old(pmm.mem.data), pmm.mem.data, old(pmm.held))
    {
      ghost var t0, s0 := pmm.mem.tables, shape;
      var pml3 := Descend(pagemap, v[3]);
      if pml3 == 0 {
        return 0;
      }
      ghost var t1, s1 := pmm.mem.tables, shape;
      assert SameNode(s0, s1, pagemap);
      var pml2 := Descend(pml3, v[2]);
      ghost var t2, s2 := pmm.mem.tables, shape;
      GrowthTwice(t0, s0, t1, s1, t2, s2);
      if pml2 == 0 {
        return 0;
      }
      pml1 := Descend(pml2, v[1]);
      GrowthTwice(t0, s0, t2, s2, pmm.mem.tables, shape);
      if pml1 != 0 {
        assert SameNode(s0, s1, pml3) && SameNode(s0, s2, pml2);
        SlotsTwice(t0, s0, t1, s1, t2, pagemap, v[3], pml3, v[2]);
        SlotsTwice(t0, s0, t2, s2, pmm.mem.tables, pagemap, v[3], pml2, v[1]);
        PathIsLeaf(t1, s1, t2, s2, pmm.mem.tables, shape, pagemap, pml3, pml2, pml1, v);
      }
    }

    /** vmm_map; not done when there is no page for a missing table. */
    method MapPage(pagemap: nat, virt: nat, phys: nat, flags: nat) returns (done: bool)
      requires Valid() && IsTable(shape, pagemap, 4) && IsFrame(phys) && IsFlags(flags)
      modifies pmm`idx, pmm`free, pmm`held, pmm.cache, pmm.mem, `shape
      ensures Valid()
      ensures if done then Step(old(Now()), Map(pagemap, IndicesOf(virt), phys + flags), Now())
              else |old(pmm.free)| < 3 && GrownSince(old(pmm.mem.tables), old(shape))
      ensures |pmm.free| + 3 >= |old(pmm.free)|
      ensures old(pmm.held) <= pmm.held && pmm.held - shape.Keys == old(pmm.held) - old(shape).Keys
      ensures SameBytes(old(pmm.mem.data), pmm.mem.data, old(pmm.held))
    {
      var v := IndicesOf(virt);
      var pml1 := WalkDown(pagemap, v);
      done := pml1 != 0;
      if done {
        SetAfterGrowth(old(pmm.mem.tables), old(shape), pmm.mem.tables, shape, pagemap, v, phys + flags);
        MapsSlot(old(pmm.mem.tables), old(shape), pmm.mem.tables, shape, pagemap, v, phys + flags);
        SetEntry(pml1, v[0], phys + flags);
      }
    }

    /** The entry a walk of `v` ends at: the first that is not present, or that of the last level. */
    method FindEntry(pagemap: nat, v: Indices) returns (p: nat, level: nat)
      requires Valid() && IsTable(shape, pagemap, 4)
      ensures 1 <= level <= 4 && IsTable(shape, p, level)
      ensures level == 1 ==> Leaf(pmm.mem.tables, pagemap, 4, v) == p
      ensures level > 1 ==> !Present(EntryAt(pmm.mem.tables, p, v[level - 1])) && PageEntry(pmm.mem.tables, pagemap, v) == 0
    {
      var t := pmm.mem.tables;
      if !Present(EntryAt(t, pagemap, v[3])) {
        return pagemap, 4;
      }
      var pml3 := FrameOf(EntryAt(t, pagemap, v[3]));
      assert SlotOk(t, shape, pagemap, v[3]);
      if !Present(EntryAt(t, pml3, v[2])) {
        assert EntryFrom(t, pml3, 3, v) == 0;
        return pml3, 3;
      }
      var pml2 := FrameOf(EntryAt(t, pml3, v[2]));
      assert SlotOk(t, shape, pml3, v[2]);
      if !Present(EntryAt(t, pml2, v[1])) {
        assert EntryFrom(t, pml2, 2, v) == 0;
        return pml2, 2;
      }
      p, level := FrameOf(EntryAt(t, pml2, v[1])), 1;
      assert SlotOk(t, shape, pml2, v[1]);
      assert Leaf(t, pml2, 2, v) == p;
    }

    /** vmm_unmap */
    method UnmapPage(pagemap: nat, virt: nat)
      requires Valid() && IsTable(shape, pagemap, 4)
      modifies pmm.mem`tables
      ensures Valid() && Step(old(Now()), Unmap(pagemap, IndicesOf(virt)), Now())
    {
      var v := IndicesOf(virt);
      ghost var t := pmm.mem.tables;
      var p, level := FindEntry(pagemap, v);
      UnmapsAt(t, shape, pagemap, v, p, level);
      SetEntry(p, v[level - 1], 0);
    }

    /** vmm_new_pagemap; 0 when there is no page. */
    method OpenPagemap() returns (pagemap: nat)
      requires Valid()
      modifies pmm`idx, pmm`free, pmm`held, pmm.cache, pmm.mem, `shape
      ensures Valid()
      ensures pagemap == 0 <==> old(pmm.free) == []
      ensures if pagemap == 0 then Now() == old(Now()) else Step(old(Now()), NewPagemap(pagemap), Now())
      ensures SameBytes(old(pmm.mem.data), pmm.mem.data, old(pmm.held))
    {
      pagemap := FreshPage();
      if pagemap == 0 {
        return;
      }
      var row := CopyKernelHalf(pmm.mem.tables, kernelPagemap);
      OpenOpens(old(pmm.mem.tables), shape, kernelPagemap, pagemap, row);
      OpenCopiesSlots(old(pmm.mem.tables), shape, kernelPagemap, pagemap, row);
      SetTable(pagemap, row);
      shape := shape[pagemap := Node(4, 0, 0)];
      assert pmm.mem.tables == old(pmm.mem.tables)[pagemap := row];
    }

    method SetTable(p: nat, row: Table)
      modifies pmm.mem`tables
      ensures pmm.mem.tables == old(pmm.mem.tables)[p := row]
    {
      pmm.mem.tables := pmm.mem.tables[p := row];
    }
  }

  lemma PresentSlot(t: Tables, s: Shape, p: nat, i: nat)
    requires i < SLOTS && Present(EntryAt(t, p, i))
    ensures SlotsAfter(t, s, t, p, i)
  {
    forall q, j: nat
      ensures SlotAfter(t, s, t, p, i, q, j)
    {
    }
  }

  /** The last write of vmm_map: the page's entry is set, and no further slot becomes present. */
  lemma MapsSlot(t: Tables, s: Shape, t1: Tables, s1: Shape, pagemap: nat, v: Indices, e: nat)
    requires Growth(t, s, t1, s1) && IsTable(s, pagemap, 4) && Leaf(t1, pagemap, 4, v) != 0
    requires SlotsAfter(t, s, t1, pagemap, v[3])
    ensures var t2 := WithEntry(t1, Leaf(t1, pagemap, 4, v), v[0], e);
      Remapped(t, s, t2, s1, pagemap, v, e) && SlotsAfter(t, s, t2, pagemap, v[3])
  {
    assert SameNode(s, s1, pagemap);
    EntryThroughLeaf(t1, s1, pagemap, 4, v);
    SetAfterGrowth(t, s, t1, s1, pagemap, v, e);
    WriteAddsNoSlot(t1, s1, Leaf(t1, pagemap, 4, v), v[0], e);
    SlotsTwice(t, s, t1, s1, WithEntry(t1, Leaf(t1, pagemap, 4, v), v[0], e), pagemap, v[3], 0, 0);
  }

  // ---------- Copying a range ----------

  /** The indices of the k-th page from `start` on. */
  function PageOf(start: nat, k: nat): Indices
  {
    IndicesOf(start + k * PAGE_SIZE)
  }

  /** The page is one of the first `n` from `start` on. */
  ghost predicate InRange(start: nat, n: nat, w: Indices)
  {
    exists k :: 0 <= k < n && w == PageOf(start, k)
  }

  ghost predicate CopiedAt(t: Tables, t': Tables, dest: nat, src: nat, start: nat, n: nat, flags: nat, w: Indices)
  {
    && Translate(t', src, w) == Translate(t, src, w)
    && PageEntry(t', dest, w) ==
         if InRange(start, n, w) && Translate(t, src, w) != 0 then Translate(t, src, w) + flags else PageEntry(t, dest, w)
  }

  /** The first `n` pages map in `dest` to what they map to in `src`, with the flags; nothing else changed in either. */
  ghost predicate RangeCopied(t: Tables, t': Tables, dest: nat, src: nat, start: nat, n: nat, flags: nat)
  {
    forall w {:trigger CopiedAt(t, t', dest, src, start, n, flags, w)} :: CopiedAt(t, t', dest, src, start, n, flags, w)
  }

  lemma NothingCopied(t: Tables, dest: nat, src: nat, start: nat, flags: nat)
    ensures RangeCopied(t, t, dest, src, start, 0, flags)
  {
    forall w
      ensures CopiedAt(t, t, dest, src, start, 0, flags, w)
    {
    }
  }

  lemma NextPage(start: nat, n: nat, w: Indices)
    ensures InRange(start, n + 1, w) <==> InRange(start, n, w) || w == PageOf(start, n)
  {
    if InRange(start, n, w) {
      var k :| 0 <= k < n && w == PageOf(start, k);
      assert 0 <= k < n + 1;
    }
  }

  /** One more page: mapped to what the source maps it to, or skipped where that maps nothing. */
  lemma CopyNext(t: Tables, t1: Tables, s1: Shape, t2: Tables, s2: Shape, dest: nat, src: nat, start: nat, n: nat, flags: nat)
    requires RangeCopied(t, t1, dest, src, start, n, flags) && IsTable(s1, dest, 4) && IsTable(s1, src, 4) && IsFlags(flags)
    requires var v := PageOf(start, n);
      if Translate(t1, src, v) == 0 then t2 == t1 else Remapped(t1, s1, t2, s2, dest, v, Translate(t1, src, v) + flags)
    ensures RangeCopied(t, t2, dest, src, start, n + 1, flags)
  {
    var v, m := PageOf(start, n), n + 1;
    assert CopiedAt(t, t1, dest, src, start, n, flags, v);
    forall w
      ensures CopiedAt(t, t2, dest, src, start, m, flags, w)
    {
      assert CopiedAt(t, t1, dest, src, start, n, flags, w);
      NextPage(start, n, w);
      if Translate(t1, src, v) != 0 {
        CopyOne(t1, s1, t2, s2, dest, src, v, flags, w);
      }
    }
  }

  /** Mapping a page as the source maps it changes its entry in the destination, and no frame in the source. */
  lemma CopyOne(t: Tables, s: Shape, t': Tables, s': Shape, dest: nat, src: nat, v: Indices, flags: nat, w: Indices)
    requires Remapped(t, s, t', s', dest, v, Translate(t, src, v) + flags) && IsTable(s, src, 4) && IsFlags(flags)
    ensures Translate(t', src, w) == Translate(t, src, w)
    ensures PageEntry(t', dest, w) == if w == v then Translate(t, src, v) + flags else PageEntry(t, dest, w)
  {
    var e := Translate(t, src, v) + flags;
    FramesAreFrames(PageEntry(t, src, v));
    FrameOfTagged(Translate(t, src, v), flags);
    assert RemappedAt(t, s, t', dest, v, e, dest, w) && RemappedAt(t, s, t', dest, v, e, src, w);
  }

  /** map_range_to_pagemap; not done when pages for tables run out. */
  method MapRange(vm: Paging, dest: nat, src: nat, start: nat, size: nat, flags: nat) returns (done: bool)
    requires vm.Valid() && IsTable(vm.shape, dest, 4) && IsTable(vm.shape, src, 4) && IsFlags(flags)
    modifies vm.pmm`idx, vm.pmm`free, vm.pmm`held, vm.pmm.cache, vm.pmm.mem, vm`shape
    ensures vm.Valid() && IsTable(vm.shape, dest, 4) && IsTable(vm.shape, src, 4)
    ensures done ==>
      RangeCopied(old(vm.pmm.mem.tables), vm.pmm.mem.tables, dest, src, start, (size + PAGE_SIZE - 1) / PAGE_SIZE, flags)
    ensures |old(vm.pmm.free)| >= 3 * ((size + PAGE_SIZE - 1) / PAGE_SIZE) ==> done
  {
    var offset := 0;
    ghost var k := 0;
    NothingCopied(vm.pmm.mem.tables, dest, src, start, flags);
    while offset < size
      invariant offset == k * PAGE_SIZE && k <= (size + PAGE_SIZE - 1) / PAGE_SIZE
      invariant vm.Valid() && IsTable(vm.shape, dest, 4) && IsTable(vm.shape, src, 4)
      invariant RangeCopied(old(vm.pmm.mem.tables), vm.pmm.mem.tables, dest, src, start, k, flags)
      invariant |vm.pmm.free| + 3 * k >= |old(vm.pmm.free)|
    {
      done := CopyPage(vm, dest, src, start, offset, flags, k, old(vm.pmm.mem.tables));
      if !done {
        return;
      }
      offset := offset + PAGE_SIZE;
      k := k + 1;
    }
    done := true;
  }

  method CopyPage(vm: Paging, dest: nat, src: nat, start: nat, offset: nat, flags: nat, ghost k: nat, ghost before: Tables)
    returns (done: bool)
    requires vm.Valid() && IsTable(vm.shape, dest, 4) && IsTable(vm.shape, src, 4) && IsFlags(flags)
    requires offset == k * PAGE_SIZE && RangeCopied(before, vm.pmm.mem.tables, dest, src, start, k, flags)
    modifies vm.pmm`idx, vm.pmm`free, vm.pmm`held, vm.pmm.cache, vm.pmm.mem, vm`shape
    ensures vm.Valid() && IsTable(vm.shape, dest, 4) && IsTable(vm.shape, src, 4)
    ensures if done then RangeCopied(before, vm.pmm.mem.tables, dest, src, start, k + 1, flags) else |old(vm.pmm.free)| < 3
    ensures |vm.pmm.free| + 3 >= |old(vm.pmm.free)|
  {
    ghost var t, s := vm.pmm.mem.tables, vm.shape;
    assert IndicesOf(start + offset) == PageOf(start, k);
    var phys := vm.VirtToPhys(src, start + offset);
    done := true;
    if phys != 0 {
      FramesAreFrames(PageEntry(t, src, IndicesOf(start + offset)));
      done := vm.MapPage(dest, start + offset, phys, flags);
      assert SameNode(s, vm.shape, dest) && SameNode(s, vm.shape, src);
    }
    if done {
      CopyNext(before, t, s, vm.pmm.mem.tables, vm.shape, dest, src, start, k, flags);
    }
  }

  lemma FramesAreFrames(e: nat)
    ensures IsFrame(FrameOf(e))
  {
  }

  /** Clearing the entry a walk ends at unmaps the page, whichever level it is on. */
  lemma UnmapsAt(t: Tables, s: Shape, pagemap: nat, v: Indices, p: nat, level: nat)
    requires TreeOk(t, s) && IsTable(s, pagemap, 4) && 1 <= level <= 4 && IsTable(s, p, level)
    requires level == 1 ==> Leaf(t, pagemap, 4, v) == p
    requires level > 1 ==> !Present(EntryAt(t, p, v[level - 1])) && PageEntry(t, pagemap, v) == 0
    ensures Remapped(t, s, WithEntry(t, p, v[level - 1], 0), s, pagemap, v, 0)
    ensures SlotsAfter(t, s, WithEntry(t, p, v[level - 1], 0), 0, 0)
  {
    WriteAddsNoSlot(t, s, p, v[level - 1], 0);
    if level == 1 {
      NoGrowth(t, s);
      SetAfterGrowth(t, s, t, s, pagemap, v, 0);
    } else {
      ClearIsGrowth(t, s, p, v[level - 1]);
      GrowthUnmaps(t, s, WithEntry(t, p, v[level - 1], 0), s, pagemap, v);
    }
  }

  /** Entries met on the way down are kept by later growth, so the way down is the walk. */
  lemma PathIsLeaf(t1: Tables, s1: Shape, t2: Tables, s2: Shape, t3: Tables, s3: Shape,
                   pml4: nat, pml3: nat, pml2: nat, pml1: nat, v: Indices)
    requires Growth(t1, s1, t2, s2) && Growth(t2, s2, t3, s3)
    requires IsTable(s1, pml4, 4) && IsTable(s1, pml3, 3) && IsTable(s2, pml2, 2)
    requires Present(EntryAt(t1, pml4, v[3])) && FrameOf(EntryAt(t1, pml4, v[3])) == pml3
    requires Present(EntryAt(t2, pml3, v[2])) && FrameOf(EntryAt(t2, pml3, v[2])) == pml2
    requires Present(EntryAt(t3, pml2, v[1])) && FrameOf(EntryAt(t3, pml2, v[1])) == pml1
    ensures Leaf(t3, pml4, 4, v) == pml1
  {
    assert SameNode(s1, s2, pml4) && SameNode(s1, s2, pml3);
    assert EntryKept(t1, s1, t2, pml4, v[3]) && EntryKept(t2, s2, t3, pml4, v[3]) && EntryKept(t2, s2, t3, pml3, v[2]);
    assert Leaf(t3, pml2, 2, v) == pml1;
  }
}
