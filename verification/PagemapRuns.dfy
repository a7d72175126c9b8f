/** Runs of vmm_map, vmm_unmap and vmm_new_pagemap, and what virt_to_phys answers after them. */
module PagemapRuns {
  import opened PhysicalMemory
  import opened PageTables

  datatype State = State(tables: Tables, shape: Shape, kernel: nat)

  datatype Event =
    | Map(pagemap: nat, page: Indices, entry: nat)
    | Unmap(pagemap: nat, page: Indices)
    | NewPagemap(pagemap: nat)

  ghost predicate Step(a: State, e: Event, b: State)
  {
    && b.kernel == a.kernel
    && match e
       case Map(p, v, entry) =>
         Remapped(a.tables, a.shape, b.tables, b.shape, p, v, entry) && SlotsAfter(a.tables, a.shape, b.tables, p, v[3])
       case Unmap(p, v) =>
         Remapped(a.tables, a.shape, b.tables, b.shape, p, v, 0) && SlotsAfter(a.tables, a.shape, b.tables, 0, 0)
       case NewPagemap(pm) =>
         Opened(a.tables, a.shape, b.tables, b.shape, a.kernel, pm) && OpenSlots(a.tables, a.shape, b.tables, a.kernel, pm)
  }

  ghost predicate StepAt(states: seq<State>, events: seq<Event>, k: nat)
    requires |states| == |events| + 1 && k < |events|
  {
    Step(states[k], events[k], states[k + 1])
  }

  ghost predicate Run(states: seq<State>, events: seq<Event>)
  {
    && |states| == |events| + 1
    && forall k {:trigger StepAt(states, events, k)} :: 0 <= k < |events| ==> StepAt(states, events, k)
  }

  ghost predicate IsPagemap(a: State, q: nat)
  {
    IsTable(a.shape, q, 4)
  }

  lemma PrefixIsRun(states: seq<State>, events: seq<Event>, n: nat)
    requires Run(states, events) && n <= |events|
    ensures Run(states[..n + 1], events[..n])
  {
    var first, done := states[..n + 1], events[..n];
    forall k | 0 <= k < n
      ensures StepAt(first, done, k)
    {
      assert StepAt(states, events, k);
    }
  }

  lemma StepKeepsPagemap(a: State, e: Event, b: State, q: nat)
    requires Step(a, e, b)
    ensures IsPagemap(a, q) ==> IsPagemap(b, q) && e != NewPagemap(q)
    ensures IsPagemap(b, q) ==> IsPagemap(a, q) || e == NewPagemap(q)
  {
    assert !e.NewPagemap? ==> SameNode(a.shape, b.shape, q);
  }

  // ---------- The flat map, from the events alone ----------

  /** Has pagemap `q` a table in slot `i`? */
  ghost function HasSlot(start: State, events: seq<Event>, q: nat, i: nat): bool
    requires i < SLOTS
    decreases |events|
  {
    if events == [] then Present(EntryAt(start.tables, q, i))
    else
      var before, e := events[..|events| - 1], events[|events| - 1];
      if e == NewPagemap(q) then i >= KERNEL_HALF && start.kernel != 0 && HasSlot(start, before, start.kernel, i)
      else HasSlot(start, before, q, i) || (e.Map? && e.pagemap == q && e.page[3] == i)
  }

  /**
    Do two pagemaps share slot `i`?  A new pagemap shares each kernel slot that the
    kernel's pagemap has at that moment, with it and with all that share it there.
   */
  ghost function Shares(start: State, events: seq<Event>, p: nat, q: nat, i: nat): bool
    requires i < SLOTS
    decreases |events|, 0
  {
    if events == [] then Linked(start.tables, p, q, i)
    else
      var before, e := events[..|events| - 1], events[|events| - 1];
      if e == NewPagemap(q) then SharesWithNew(start, before, p, i)
      else if e == NewPagemap(p) then SharesWithNew(start, before, q, i)
      else Shares(start, before, p, q, i)
  }

  ghost function SharesWithNew(start: State, before: seq<Event>, p: nat, i: nat): bool
    requires i < SLOTS
    decreases |before|, 1
  {
    && i >= KERNEL_HALF && start.kernel != 0 && HasSlot(start, before, start.kernel, i)
    && (p == start.kernel || Shares(start, before, p, start.kernel, i))
  }

  /** Does an event that follows `before` write page `w` as `q` sees it? */
  ghost predicate Writes(start: State, before: seq<Event>, e: Event, q: nat, w: Indices)
  {
    (e.Map? || e.Unmap?) && e.page == w && (e.pagemap == q || Shares(start, before, e.pagemap, q, w[3]))
  }

  /** The entry written last, 0 after an unmap, and what was there at first otherwise. */
  ghost function LastWritten(start: State, events: seq<Event>, q: nat, w: Indices): nat
    decreases |events|
  {
    if events == [] then PageEntry(start.tables, q, w)
    else
      var before, e := events[..|events| - 1], events[|events| - 1];
      if Writes(start, before, e, q, w) then (if e.Map? then e.entry else 0)
      else if e != NewPagemap(q) then LastWritten(start, before, q, w)
      else if w[3] < KERNEL_HALF || start.kernel == 0 then 0
      else LastWritten(start, before, start.kernel, w)
  }

  // ---------- The tables refine it ----------

  lemma StepSlot(a: State, e: Event, b: State, q: nat, i: nat)
    requires Step(a, e, b) && IsPagemap(b, q) && i < SLOTS
    ensures Present(EntryAt(b.tables, q, i)) <==>
      if e == NewPagemap(q) then i >= 256 && a.kernel != 0 && Present(EntryAt(a.tables, a.kernel, i))
      else Present(EntryAt(a.tables, q, i)) || (e.Map? && e.pagemap == q && e.page[3] == i)
  {
    StepKeepsPagemap(a, e, b, q);
    match e
    case Map(p, v, entry) => assert SlotAfter(a.tables, a.shape, b.tables, p, v[3], q, i);
    case Unmap(p, v) => assert SlotAfter(a.tables, a.shape, b.tables, 0, 0, q, i);
    case NewPagemap(pm) =>
      assert SlotAfter(a.tables, a.shape, b.tables, 0, 0, q, i) && OpenSlot(a.tables, b.tables, a.kernel, pm, i);
  }

  lemma KernelIsKept(states: seq<State>, events: seq<Event>)
    requires Run(states, events)
    ensures states[|events|].kernel == states[0].kernel
    decreases |events|
  {
    if events != [] {
      var n := |events| - 1;
      PrefixIsRun(states, events, n);
      KernelIsKept(states[..n + 1], events[..n]);
      assert StepAt(states, events, n);
    }
  }

  /** A slot is present in the tables exactly when the events say so. */
  lemma {:induction false} SlotsFollowEvents(states: seq<State>, events: seq<Event>, q: nat, i: nat)
    requires Run(states, events) && IsPagemap(states[|events|], q) && i < SLOTS
    ensures Present(EntryAt(states[|events|].tables, q, i)) <==> HasSlot(states[0], events, q, i)
    decreases |events|
  {
    if events != [] {
      var n := |events| - 1;
      assert StepAt(states, events, n);
      PrefixIsRun(states, events, n);
      KernelIsKept(states[..n + 1], events[..n]);
      StepSlot(states[n], events[n], states[n + 1], q, i);
      StepKeepsPagemap(states[n], events[n], states[n + 1], q);
      var r := if events[n] == NewPagemap(q) then states[n].kernel else q;
      if IsPagemap(states[n], r) {
        SlotsFollowEvents(states[..n + 1], events[..n], r, i);
      }
    }
  }

  lemma StepLink(a: State, e: Event, b: State, p: nat, q: nat, i: nat)
    requires Step(a, e, b) && IsPagemap(b, p) && IsPagemap(b, q) && p != q && i < SLOTS
    ensures Linked(b.tables, p, q, i) <==>
      if e == NewPagemap(q) then a.kernel != 0 && Linked(a.tables, p, a.kernel, i)
      else if e == NewPagemap(p) then a.kernel != 0 && Linked(a.tables, q, a.kernel, i)
      else Linked(a.tables, p, q, i)
  {
    StepKeepsPagemap(a, e, b, p);
    StepKeepsPagemap(a, e, b, q);
    if e == NewPagemap(q) {
      assert LinkedLikeKernel(a.tables, a.shape, b.tables, a.kernel, q, p, i);
    } else if e == NewPagemap(p) {
      assert LinkedLikeKernel(a.tables, a.shape, b.tables, a.kernel, p, q, i);
    } else {
      assert SameLink(a.tables, a.shape, b.tables, p, q, i);
    }
  }

  lemma LinkedToKernel(states: seq<State>, events: seq<Event>, p: nat, i: nat)
    requires Run(states, events) && i < SLOTS && IsPagemap(states[|events|], p)
    requires var k := states[|events|].kernel; k != 0 ==> IsPagemap(states[|events|], k)
    ensures var k := states[|events|].kernel;
      k != 0 && Linked(states[|events|].tables, p, k, i) <==> SharesWithNew(states[0], events, p, i)
    decreases |events|, 1
  {
    KernelIsKept(states, events);
    var k := states[|events|].kernel;
    if k != 0 {
      SlotsFollowEvents(states, events, k, i);
      if p != k {
        LinksFollowEvents(states, events, p, k, i);
      }
    }
  }

  /** Two pagemaps are linked in the tables exactly when the events say that they share the slot. */
  lemma {:induction false} LinksFollowEvents(states: seq<State>, events: seq<Event>, p: nat, q: nat, i: nat)
    requires Run(states, events) && IsPagemap(states[|events|], p) && IsPagemap(states[|events|], q) && p != q && i < SLOTS
    ensures Linked(states[|events|].tables, p, q, i) <==> Shares(states[0], events, p, q, i)
    decreases |events|, 0
  {
    if events != [] {
      var n := |events| - 1;
      var e := events[n];
      assert StepAt(states, events, n);
      PrefixIsRun(states, events, n);
      StepLink(states[n], e, states[n + 1], p, q, i);
      StepKeepsPagemap(states[n], e, states[n + 1], p);
      StepKeepsPagemap(states[n], e, states[n + 1], q);
      if e == NewPagemap(q) {
        LinkedToKernel(states[..n + 1], events[..n], p, i);
      } else if e == NewPagemap(p) {
        LinkedToKernel(states[..n + 1], events[..n], q, i);
      } else {
        LinksFollowEvents(states[..n + 1], events[..n], p, q, i);
      }
    }
  }

  lemma StepEntry(a: State, e: Event, b: State, q: nat, w: Indices)
    requires Step(a, e, b) && IsPagemap(b, q)
    ensures PageEntry(b.tables, q, w) ==
      if (e.Map? || e.Unmap?) && Touches(a.tables, e.pagemap, e.page, q, w) then (if e.Map? then e.entry else 0)
      else if e != NewPagemap(q) then PageEntry(a.tables, q, w)
      else if w[3] < 256 || a.kernel == 0 then 0
      else PageEntry(a.tables, a.kernel, w)
  {
    StepKeepsPagemap(a, e, b, q);
    match e
    case Map(p, v, entry) => assert RemappedAt(a.tables, a.shape, b.tables, p, v, entry, q, w);
    case Unmap(p, v) => assert RemappedAt(a.tables, a.shape, b.tables, p, v, 0, q, w);
    case NewPagemap(pm) =>
      assert SameEntry(a.tables, a.shape, b.tables, q, w) && InheritsAt(a.tables, b.tables, a.kernel, pm, w);
  }

  /** The four-level tables refine the flat map. */
  lemma {:induction false} RunRefinesFlatMap(states: seq<State>, events: seq<Event>, q: nat, w: Indices)
    requires Run(states, events) && IsPagemap(states[|events|], q)
    ensures PageEntry(states[|events|].tables, q, w) == LastWritten(states[0], events, q, w)
    ensures Translate(states[|events|].tables, q, w) == FrameOf(LastWritten(states[0], events, q, w))
    decreases |events|
  {
    if events != [] {
      var n := |events| - 1;
      var e := events[n];
      assert StepAt(states, events, n);
      PrefixIsRun(states, events, n);
      KernelIsKept(states[..n + 1], events[..n]);
      StepEntry(states[n], e, states[n + 1], q, w);
      StepKeepsPagemap(states[n], e, states[n + 1], q);
      if !e.NewPagemap? && e.pagemap != q {
        LinksFollowEvents(states[..n + 1], events[..n], e.pagemap, q, w[3]);
      }
      var r := if e == NewPagemap(q) then states[n].kernel else q;
      if IsPagemap(states[n], r) {
        RunRefinesFlatMap(states[..n + 1], events[..n], r, w);
      }
    }
  }

  // ---------- Private and shared halves ----------

  /** Nothing below the kernel half is ever shared that was not at the start. */
  lemma {:induction false} NoSharingBelow(start: State, events: seq<Event>, p: nat, q: nat, i: nat)
    requires i < 256
    ensures !Shares(start, events, p, q, i)
    decreases |events|
  {
    if events != [] {
      NoSharingBelow(start, events[..|events| - 1], p, q, i);
    }
  }

  /** Below the kernel half, only a pagemap's own maps and unmaps change its entries. */
  lemma {:induction false} LowerHalfIsPrivate(states: seq<State>, events: seq<Event>, q: nat, w: Indices)
    requires Run(states, events) && IsPagemap(states[0], q) && w[3] < 256
    requires forall k :: 0 <= k < |events| ==> events[k].pagemap != q
    ensures IsPagemap(states[|events|], q) && PageEntry(states[|events|].tables, q, w) == PageEntry(states[0].tables, q, w)
    decreases |events|
  {
    if events != [] {
      var n := |events| - 1;
      PrefixIsRun(states, events, n);
      LowerHalfIsPrivate(states[..n + 1], events[..n], q, w);
      assert StepAt(states, events, n);
      StepKeepsPagemap(states[n], events[n], states[n + 1], q);
      StepEntry(states[n], events[n], states[n + 1], q, w);
    }
  }

  /** Sharing lasts: whatever is mapped or unmapped under a shared slot is seen through both pagemaps. */
  lemma {:induction false} KernelHalfIsShared(states: seq<State>, events: seq<Event>, p: nat, q: nat, w: Indices)
    requires Run(states, events) && p != q && IsPagemap(states[0], p) && IsPagemap(states[0], q)
    requires Linked(states[0].tables, p, q, w[3])
    ensures IsPagemap(states[|events|], p) && IsPagemap(states[|events|], q) && Linked(states[|events|].tables, p, q, w[3])
    ensures PageEntry(states[|events|].tables, p, w) == PageEntry(states[|events|].tables, q, w)
    decreases |events|
  {
    if events != [] {
      var n := |events| - 1;
      PrefixIsRun(states, events, n);
      KernelHalfIsShared(states[..n + 1], events[..n], p, q, w);
      assert StepAt(states, events, n);
      StepKeepsPagemap(states[n], events[n], states[n + 1], p);
      StepKeepsPagemap(states[n], events[n], states[n + 1], q);
      assert SameLink(states[n].tables, states[n].shape, states[n + 1].tables, p, q, w[3]);
    }
    LinkedAreAlike(states[|events|].tables, p, q, w);
  }

  /** A new pagemap is linked to the kernel's in every kernel slot present at that moment. */
  lemma NewPagemapIsLinked(a: State, pm: nat, b: State, i: nat)
    requires Step(a, NewPagemap(pm), b) && a.kernel != 0
    requires 256 <= i < SLOTS && Present(EntryAt(a.tables, a.kernel, i))
    ensures IsPagemap(b, pm) && Linked(b.tables, a.kernel, pm, i)
  {
    assert LinkedLikeKernel(a.tables, a.shape, b.tables, a.kernel, pm, a.kernel, i);
  }
}
