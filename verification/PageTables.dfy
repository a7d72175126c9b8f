/** Four-level page tables as values: what a walk finds, and which writes can change it. */
module PageTables {

  import opened PhysicalMemory

  const KERNEL_HALF: nat := 256
  const FRAME_LIMIT: nat := 0x10_0000_0000_0000

  function EntryAt(t: Tables, p: nat, i: nat): nat
    requires i < SLOTS
  {
    if p in t then t[p][i] else 0
  }

  function WithEntry(t: Tables, p: nat, i: nat, e: nat): Tables
    requires i < SLOTS
  {
    t[p := (if p in t then t[p] else Zeros(SLOTS))[i := e]]
  }

  predicate Present(e: nat)
  {
    e % 2 == 1
  }

  /** Bits 12 to 51. */
  function FrameOf(e: nat): nat
  {
    e / 4096 % 0x100_0000_0000 * 4096
  }

  predicate IsFrame(p: nat)
  {
    p % 4096 == 0 && p < FRAME_LIMIT
  }

  /** Flag words leave the frame bits alone, so that or-ing them in is adding them. */
  predicate IsFlags(f: nat)
  {
    f / 4096 % 0x100_0000_0000 == 0
  }

  lemma FrameOfTagged(p: nat, f: nat)
    requires IsFrame(p) && IsFlags(f)
    ensures FrameOf(p + f) == p
  {
    var k, low, high := p / 4096, f % 4096, f / 4096 / 0x100_0000_0000;
    assert f == low + 4096 * (0x100_0000_0000 * high);
    assert p + f == low + 4096 * (k + 0x100_0000_0000 * high);
    assert (p + f) / 4096 == k + 0x100_0000_0000 * high;
  }

  /** The four table indices of an address, lowest level first. */
  type Indices = v: seq<nat> | |v| == 4 && forall k :: 0 <= k < 4 ==> v[k] < SLOTS witness [0, 0, 0, 0]

  function IndicesOf(virt: nat): Indices
  {
    [virt / 0x1000 % SLOTS, virt / 0x20_0000 % SLOTS, virt / 0x4000_0000 % SLOTS, virt / 0x80_0000_0000 % SLOTS]
  }

  /** Two addresses share their indices exactly when they share the page number of their low 48 bits. */
  lemma IndicesArePageNumber(a: nat, b: nat)
    ensures IndicesOf(a) == IndicesOf(b) <==> a / 0x1000 % 0x10_0000_0000 == b / 0x1000 % 0x10_0000_0000
  {
    SplitPageNumber(a);
    SplitPageNumber(b);
    if a / 0x1000 % 0x10_0000_0000 == b / 0x1000 % 0x10_0000_0000 {
      SameDigits(IndicesOf(a), IndicesOf(b));
    }
  }

  /** The top-level slot tells the halves apart: below 256 bit 47 of the address is clear. */
  lemma HalfOfAddress(a: nat)
    ensures IndicesOf(a)[3] < 256 <==> a / 0x8000_0000_0000 % 2 == 0
  {
    var k := a / 0x80_0000_0000;
    assert a / 0x8000_0000_0000 == k / 256;
    assert k == 512 * (k / 512) + k % 512;
  }

  function PageNumber(v: Indices): nat
  {
    v[0] + 0x200 * v[1] + 0x4_0000 * v[2] + 0x800_0000 * v[3]
  }

  lemma SameDigits(v: Indices, w: Indices)
    requires PageNumber(v) == PageNumber(w)
    ensures v == w
  {
    assert v[3] == w[3];
    assert v[2] == w[2];
    assert v[1] == w[1];
    assert v[0] == w[0];
  }

  lemma SplitPageNumber(a: nat)
    ensures a / 0x1000 % 0x10_0000_0000 == PageNumber(IndicesOf(a))
  {
    var p := a / 0x1000;
    assert a / 0x20_0000 == p / 0x200;
    assert a / 0x4000_0000 == p / 0x200 / 0x200;
    assert a / 0x80_0000_0000 == p / 0x200 / 0x200 / 0x200;
  }

  // ---------- Walks ----------

  /** The entry a walk down from table `p` ends at, 0 if the way to it is not present. */
  function EntryFrom(t: Tables, p: nat, level: nat, v: Indices): nat
    requires 1 <= level <= 4
    decreases level
  {
    var e := EntryAt(t, p, v[level - 1]);
    if level == 1 then e
    else if !Present(e) then 0
    else EntryFrom(t, FrameOf(e), level - 1, v)
  }

  /** The entry of a page, frame and flags. */
  function PageEntry(t: Tables, pagemap: nat, v: Indices): nat
  {
    EntryFrom(t, pagemap, 4, v)
  }

  /** The frame of a page; its entry is not tested for presence. */
  function Translate(t: Tables, pagemap: nat, v: Indices): nat
  {
    FrameOf(PageEntry(t, pagemap, v))
  }

  /** The last-level table of a walk, or 0 if the walk stops before it. */
  ghost function Leaf(t: Tables, p: nat, level: nat, v: Indices): nat
    requires 1 <= level <= 4
    decreases level
  {
    if level == 1 then p
    else if !Present(EntryAt(t, p, v[level - 1])) then 0
    else Leaf(t, FrameOf(EntryAt(t, p, v[level - 1])), level - 1, v)
  }

  /** The walk from the highest level down, load by load, for an address. */
  lemma FourLoads(t: Tables, pagemap: nat, a: nat)
    requires pagemap in t
    ensures var e4 := t[pagemap][a / 0x80_0000_0000 % 512];
      var p3 := e4 / 0x1000 % 0x100_0000_0000 * 0x1000;
      var e3 := if p3 in t then t[p3][a / 0x4000_0000 % 512] else 0;
      var p2 := e3 / 0x1000 % 0x100_0000_0000 * 0x1000;
      var e2 := if p2 in t then t[p2][a / 0x20_0000 % 512] else 0;
      var p1 := e2 / 0x1000 % 0x100_0000_0000 * 0x1000;
      var e1 := if p1 in t then t[p1][a / 0x1000 % 512] else 0;
      && PageEntry(t, pagemap, IndicesOf(a)) == (if e4 % 2 == 1 && e3 % 2 == 1 && e2 % 2 == 1 then e1 else 0)
      && Translate(t, pagemap, IndicesOf(a)) == if e4 % 2 == 1 && e3 % 2 == 1 && e2 % 2 == 1 then e1 / 0x1000 % 0x100_0000_0000 * 0x1000 else 0
  {
    var v := IndicesOf(a);
    var e4 := EntryAt(t, pagemap, v[3]);
    var e3 := EntryAt(t, FrameOf(e4), v[2]);
    var e2 := EntryAt(t, FrameOf(e3), v[1]);
    assert EntryFrom(t, FrameOf(e2), 1, v) == EntryAt(t, FrameOf(e2), v[0]);
    assert EntryFrom(t, FrameOf(e3), 2, v) == if Present(e2) then EntryFrom(t, FrameOf(e2), 1, v) else 0;
    assert EntryFrom(t, FrameOf(e4), 3, v) == if Present(e3) then EntryFrom(t, FrameOf(e3), 2, v) else 0;
  }

  // ---------- Permissions ----------

  datatype Access = Access(write: bool, user: bool, fetch: bool)

  /** What one entry lets the processor do: bit 0 present, bit 1 writable, bit 2 user, bit 63 no execution. */
  predicate Allows(e: nat, a: Access)
  {
    e % 2 == 1 && (a.write ==> e / 2 % 2 == 1) && (a.user ==> e / 4 % 2 == 1) && (a.fetch ==> e / 0x8000_0000_0000_0000 % 2 == 0)
  }

  /** The processor asks every entry on the way. */
  predicate Permits(t: Tables, p: nat, level: nat, v: Indices, a: Access)
    requires 1 <= level <= 4
    decreases level
  {
    var e := EntryAt(t, p, v[level - 1]);
    Allows(e, a) && (level > 1 ==> Permits(t, FrameOf(e), level - 1, v, a))
  }

  // ---------- Shape ----------

  datatype Node = Node(level: nat, parent: nat, slot: nat)

  /** Where each table stands: its level, and the slot of the table it hangs from. */
  type Shape = map<nat, Node>

  ghost predicate IsTable(s: Shape, p: nat, level: nat)
  {
    p in s && s[p].level == level
  }

  /** Slot `i` of `p` leads to a table one level down that hangs from there; kernel slots may be copies. */
  ghost predicate SlotOk(t: Tables, s: Shape, p: nat, i: nat)
    requires p in s && i < SLOTS
  {
    Present(EntryAt(t, p, i)) && s[p].level > 1 ==>
      var c := FrameOf(EntryAt(t, p, i));
      && IsTable(s, c, s[p].level - 1) && s[c].slot == i && EntryAt(t, p, i) == c + 7
      && (s[c].parent == p || (s[p].level == 4 && i >= KERNEL_HALF))
  }

  ghost predicate TreeOk(t: Tables, s: Shape)
  {
    && (forall p {:trigger s[p]} :: p in s ==> 1 <= s[p].level <= 4 && p != 0 && IsFrame(p))
    && (forall p, i {:trigger SlotOk(t, s, p, i)} :: p in s && 0 <= i < SLOTS ==> SlotOk(t, s, p, i))
  }

  lemma {:induction false} EntryThroughLeaf(t: Tables, s: Shape, p: nat, level: nat, v: Indices)
    requires TreeOk(t, s) && 1 <= level <= 4 && IsTable(s, p, level)
    ensures var leaf := Leaf(t, p, level, v);
      && (leaf != 0 ==> IsTable(s, leaf, 1))
      && EntryFrom(t, p, level, v) == if leaf == 0 then 0 else EntryAt(t, leaf, v[0])
    decreases level
  {
    if level > 1 && Present(EntryAt(t, p, v[level - 1])) {
      assert SlotOk(t, s, p, v[level - 1]);
      EntryThroughLeaf(t, s, FrameOf(EntryAt(t, p, v[level - 1])), level - 1, v);
    }
  }

  lemma Halves(x: nat, y: nat)
    ensures (2 * x + y) % 2 == y % 2 && (2 * x + y) / 2 == x + y / 2
  {
  }

  lemma LowBits(m: nat, low: nat)
    requires low < 8
    ensures var e := 8 * m + low; e % 2 == low % 2 && e / 2 % 2 == low / 2 % 2 && e / 4 % 2 == low / 4 % 2
  {
    var e := 8 * m + low;
    Halves(4 * m, low);
    Halves(2 * m, low / 2);
    Halves(m, low / 2 / 2);
    Quarter(e);
    Quarter(low);
  }

  lemma Quarter(x: nat)
    ensures x / 2 / 2 == x / 4
  {
  }

  /** The bits of a frame with flags in the low three bits and, with `nx`, in the highest. */
  lemma EntryBits(p: nat, low: nat, nx: bool)
    requires IsFrame(p) && low < 8
    ensures var e := p + low + if nx then 0x8000_0000_0000_0000 else 0;
      && e % 2 == low % 2 && e / 2 % 2 == low / 2 % 2 && e / 4 % 2 == low / 4 % 2
      && e / 0x8000_0000_0000_0000 == if nx then 1 else 0
  {
    var k := p / 4096;
    LowBits(512 * k + if nx then 0x1000_0000_0000_0000 else 0, low);
  }

  lemma TableEntryAllows(c: nat, a: Access)
    requires IsFrame(c)
    ensures Allows(c + 7, a)
  {
    EntryBits(c, 7, false);
  }

  lemma NothingAllows(a: Access)
    ensures !Allows(0, a)
  {
  }

  /** Entries that lead to tables allow everything, so that the last entry alone decides. */
  lemma {:induction false} PermitsIffEntryAllows(t: Tables, s: Shape, p: nat, level: nat, v: Indices, a: Access)
    requires TreeOk(t, s) && 1 <= level <= 4 && IsTable(s, p, level)
    ensures Permits(t, p, level, v, a) <==> Allows(EntryFrom(t, p, level, v), a)
    decreases level
  {
    if level > 1 {
      var e := EntryAt(t, p, v[level - 1]);
      NothingAllows(a);
      if Present(e) {
        assert SlotOk(t, s, p, v[level - 1]);
        TableEntryAllows(FrameOf(e), a);
        PermitsIffEntryAllows(t, s, FrameOf(e), level - 1, v, a);
      }
    }
  }

  /** Walks that end in the same table came the same way. */
  lemma {:induction false} LeafTellsTheWay(t: Tables, s: Shape, p: nat, q: nat, level: nat, v: Indices, w: Indices)
    requires TreeOk(t, s) && 1 <= level <= 4 && IsTable(s, p, level) && IsTable(s, q, level)
    requires Leaf(t, p, level, v) == Leaf(t, q, level, w) != 0
    ensures forall k :: 1 <= k < level ==> v[k] == w[k]
    ensures p == q || (level == 4 && Linked(t, p, q, v[3]))
    decreases level
  {
    if level > 1 {
      var i, j := v[level - 1], w[level - 1];
      assert SlotOk(t, s, p, i) && SlotOk(t, s, q, j);
      LeafTellsTheWay(t, s, FrameOf(EntryAt(t, p, i)), FrameOf(EntryAt(t, q, j)), level - 1, v, w);
    }
  }

  /** Kernel slot `i` of both pagemaps leads to the same table. */
  ghost predicate Linked(t: Tables, p: nat, q: nat, i: nat)
    requires i < SLOTS
  {
    && i >= KERNEL_HALF && Present(EntryAt(t, p, i)) && Present(EntryAt(t, q, i))
    && FrameOf(EntryAt(t, p, i)) == FrameOf(EntryAt(t, q, i))
  }

  /** Linked slots lead to the same entries. */
  lemma LinkedAreAlike(t: Tables, p: nat, q: nat, v: Indices)
    requires Linked(t, p, q, v[3])
    ensures PageEntry(t, p, v) == PageEntry(t, q, v) && Leaf(t, p, 4, v) == Leaf(t, q, 4, v)
  {
  }

  // ---------- Writes ----------

  /** A fresh page of zeros is hung into slot `i` of `p`. */
  function Hang(t: Tables, p: nat, i: nat, c: nat): Tables
    requires i < SLOTS
  {
    WithEntry(t - {c}, p, i, c + 7)
  }

  ghost predicate CanHang(t: Tables, s: Shape, p: nat, i: nat, c: nat)
  {
    && TreeOk(t, s) && p in s && s[p].level > 1 && i < SLOTS && !Present(EntryAt(t, p, i))
    && c !in s && c != 0 && IsFrame(c)
  }

  lemma HungEntry(c: nat)
    requires IsFrame(c)
    ensures FrameOf(c + 7) == c && Present(c + 7)
  {
    FrameOfTagged(c, 7);
  }

  lemma HangEntries(t: Tables, s: Shape, p: nat, i: nat, c: nat, q: nat, j: nat)
    requires CanHang(t, s, p, i, c) && j < SLOTS && (q in s || q == c)
    ensures EntryAt(Hang(t, p, i, c), q, j) == if q == p && j == i then c + 7 else if q == c then 0 else EntryAt(t, q, j)
    ensures FrameOf(c + 7) == c && Present(c + 7)
  {
    HungEntry(c);
  }

  lemma HangKeepsTree(t: Tables, s: Shape, p: nat, i: nat, c: nat)
    requires CanHang(t, s, p, i, c)
    ensures TreeOk(Hang(t, p, i, c), s[c := Node(s[p].level - 1, p, i)])
  {
    var t', s' := Hang(t, p, i, c), s[c := Node(s[p].level - 1, p, i)];
    forall q, j | q in s' && 0 <= j < SLOTS
      ensures SlotOk(t', s', q, j)
    {
      HangEntries(t, s, p, i, c, q, j);
      assert q in s ==> SlotOk(t, s, q, j);
    }
  }

  lemma {:induction false} HangKeepsEntries(t: Tables, s: Shape, p: nat, i: nat, c: nat, q: nat, level: nat, v: Indices)
    requires CanHang(t, s, p, i, c) && 1 <= level <= 4 && IsTable(s, q, level)
    ensures EntryFrom(Hang(t, p, i, c), q, level, v) == EntryFrom(t, q, level, v)
    decreases level
  {
    var j := v[level - 1];
    HangEntries(t, s, p, i, c, q, j);
    if level > 1 {
      if q == p && j == i {
        HangEntries(t, s, p, i, c, c, v[level - 2]);
      } else if Present(EntryAt(t, q, j)) {
        assert SlotOk(t, s, q, j);
        HangKeepsEntries(t, s, p, i, c, FrameOf(EntryAt(t, q, j)), level - 1, v);
      }
    }
  }

  /** An entry of a last-level table is set. */
  lemma SetKeepsTree(t: Tables, s: Shape, leaf: nat, i: nat, e: nat)
    requires TreeOk(t, s) && IsTable(s, leaf, 1) && i < SLOTS
    ensures TreeOk(WithEntry(t, leaf, i, e), s)
  {
    forall q, j | q in s && 0 <= j < SLOTS
      ensures SlotOk(WithEntry(t, leaf, i, e), s, q, j)
    {
      assert SlotOk(t, s, q, j);
    }
  }

  lemma {:induction false} SetKeepsLeaf(t: Tables, s: Shape, leaf: nat, i: nat, e: nat, q: nat, level: nat, v: Indices)
    requires TreeOk(t, s) && IsTable(s, leaf, 1) && i < SLOTS && 1 <= level <= 4 && IsTable(s, q, level)
    ensures Leaf(WithEntry(t, leaf, i, e), q, level, v) == Leaf(t, q, level, v)
    decreases level
  {
    if level > 1 && Present(EntryAt(t, q, v[level - 1])) {
      assert SlotOk(t, s, q, v[level - 1]);
      SetKeepsLeaf(t, s, leaf, i, e, FrameOf(EntryAt(t, q, v[level - 1])), level - 1, v);
    }
  }

  /** What mapping page `v` of pagemap `p` may change: the same page of `p`, or of a pagemap linked to it there. */
  ghost predicate Touches(t: Tables, p: nat, v: Indices, q: nat, w: Indices)
  {
    v == w && (p == q || Linked(t, p, q, v[3]))
  }

  lemma TouchesIffSameEntry(t: Tables, s: Shape, p: nat, v: Indices, q: nat, w: Indices)
    requires TreeOk(t, s) && IsTable(s, p, 4) && IsTable(s, q, 4) && Leaf(t, p, 4, v) != 0
    ensures Touches(t, p, v, q, w) <==> Leaf(t, q, 4, w) == Leaf(t, p, 4, v) && w[0] == v[0]
  {
    if Touches(t, p, v, q, w) {
      if p != q {
        LinkedAreAlike(t, p, q, v);
      }
    } else if Leaf(t, q, 4, w) == Leaf(t, p, 4, v) {
      LeafTellsTheWay(t, s, p, q, 4, v, w);
    }
  }

  /** Setting the entry a walk of (p, v) ends at changes that page, seen through `p` or a linked pagemap, and no other. */
  lemma SetChangesOnePage(t: Tables, s: Shape, p: nat, v: Indices, e: nat, q: nat, w: Indices)
    requires TreeOk(t, s) && IsTable(s, p, 4) && IsTable(s, q, 4) && Leaf(t, p, 4, v) != 0
    ensures PageEntry(WithEntry(t, Leaf(t, p, 4, v), v[0], e), q, w)
         == if Touches(t, p, v, q, w) then e else PageEntry(t, q, w)
  {
    var leaf := Leaf(t, p, 4, v);
    EntryThroughLeaf(t, s, p, 4, v);
    SetKeepsTree(t, s, leaf, v[0], e);
    SetKeepsLeaf(t, s, leaf, v[0], e, q, 4, w);
    EntryThroughLeaf(WithEntry(t, leaf, v[0], e), s, q, 4, w);
    EntryThroughLeaf(t, s, q, 4, w);
    TouchesIffSameEntry(t, s, p, v, q, w);
  }

  // ---------- What tables mean ----------

  /** Tables stay where they are, and new ones are no pagemaps. */
  ghost predicate SameNode(s: Shape, s': Shape, p: nat)
  {
    if p in s then p in s' && s'[p] == s[p] else !IsTable(s', p, 4)
  }

  ghost predicate EntryKept(t: Tables, s: Shape, t': Tables, p: nat, i: nat)
  {
    p in s && i < SLOTS && Present(EntryAt(t, p, i)) && s[p].level > 1 ==> EntryAt(t', p, i) == EntryAt(t, p, i)
  }

  ghost predicate SameEntry(t: Tables, s: Shape, t': Tables, q: nat, w: Indices)
  {
    IsTable(s, q, 4) ==> PageEntry(t', q, w) == PageEntry(t, q, w)
  }

  ghost predicate SameLink(t: Tables, s: Shape, t': Tables, p: nat, q: nat, i: nat)
  {
    IsTable(s, p, 4) && IsTable(s, q, 4) && p != q && i < SLOTS ==> (Linked(t', p, q, i) <==> Linked(t, p, q, i))
  }

  /** Tables may have been added, but they mean the same to every pagemap. */
  ghost predicate Growth(t: Tables, s: Shape, t': Tables, s': Shape)
  {
    && TreeOk(t, s) && TreeOk(t', s')
    && (forall p {:trigger SameNode(s, s', p)} :: SameNode(s, s', p))
    && (forall p, i {:trigger EntryKept(t, s, t', p, i)} :: EntryKept(t, s, t', p, i))
    && (forall q, w {:trigger SameEntry(t, s, t', q, w)} :: SameEntry(t, s, t', q, w))
    && (forall p, q, i {:trigger SameLink(t, s, t', p, q, i)} :: SameLink(t, s, t', p, q, i))
  }

  /** Slot `j` of pagemap `q` is present if it was before, or is slot `i` of `p`. */
  ghost predicate SlotAfter(t: Tables, s: Shape, t': Tables, p: nat, i: nat, q: nat, j: nat)
  {
    IsTable(s, q, 4) && j < SLOTS ==> (Present(EntryAt(t', q, j)) <==> Present(EntryAt(t, q, j)) || (q == p && j == i))
  }

  /** Slot `i` of `p`, and no other slot of a pagemap, became present; none at all when `p` is no pagemap. */
  ghost predicate SlotsAfter(t: Tables, s: Shape, t': Tables, p: nat, i: nat)
  {
    forall q, j {:trigger SlotAfter(t, s, t', p, i, q, j)} :: SlotAfter(t, s, t', p, i, q, j)
  }

  lemma SlotsTwice(t: Tables, s: Shape, t1: Tables, s1: Shape, t2: Tables, p: nat, i: nat, r: nat, j: nat)
    requires SlotsAfter(t, s, t1, p, i) && SlotsAfter(t1, s1, t2, r, j) && !IsTable(s, r, 4)
    requires forall q {:trigger SameNode(s, s1, q)} :: SameNode(s, s1, q)
    ensures SlotsAfter(t, s, t2, p, i)
  {
    forall q, k
      ensures SlotAfter(t, s, t2, p, i, q, k)
    {
      assert SameNode(s, s1, q) && SlotAfter(t, s, t1, p, i, q, k) && SlotAfter(t1, s1, t2, r, j, q, k);
    }
  }

  lemma HangAddsSlot(t: Tables, s: Shape, p: nat, i: nat, c: nat)
    requires CanHang(t, s, p, i, c)
    ensures SlotsAfter(t, s, Hang(t, p, i, c), p, i)
  {
    forall q, j: nat
      ensures SlotAfter(t, s, Hang(t, p, i, c), p, i, q, j)
    {
      if IsTable(s, q, 4) && j < SLOTS {
        HangEntries(t, s, p, i, c, q, j);
      }
    }
  }

  /** Writes into other tables, and of entries that stay absent, add no slot. */
  lemma WriteAddsNoSlot(t: Tables, s: Shape, p: nat, i: nat, e: nat)
    requires TreeOk(t, s) && i < SLOTS && (IsTable(s, p, 4) ==> !Present(EntryAt(t, p, i)) && !Present(e))
    ensures SlotsAfter(t, s, WithEntry(t, p, i, e), 0, 0)
  {
    forall q, j: nat
      ensures SlotAfter(t, s, WithEntry(t, p, i, e), 0, 0, q, j)
    {
    }
  }

  lemma NoGrowth(t: Tables, s: Shape)
    requires TreeOk(t, s)
    ensures Growth(t, s, t, s)
  {
  }

  lemma GrowthTwice(t: Tables, s: Shape, t1: Tables, s1: Shape, t2: Tables, s2: Shape)
    requires Growth(t, s, t1, s1) && Growth(t1, s1, t2, s2)
    ensures Growth(t, s, t2, s2)
  {
    forall p
      ensures SameNode(s, s2, p)
    {
      assert SameNode(s, s1, p) && SameNode(s1, s2, p);
    }
    forall p, i
      ensures EntryKept(t, s, t2, p, i)
    {
      assert SameNode(s, s1, p) && EntryKept(t, s, t1, p, i) && EntryKept(t1, s1, t2, p, i);
    }
    forall q, w
      ensures SameEntry(t, s, t2, q, w)
    {
      assert SameNode(s, s1, q) && SameEntry(t, s, t1, q, w) && SameEntry(t1, s1, t2, q, w);
    }
    forall p, q, i
      ensures SameLink(t, s, t2, p, q, i)
    {
      assert SameNode(s, s1, p) && SameNode(s, s1, q) && SameLink(t, s, t1, p, q, i) && SameLink(t1, s1, t2, p, q, i);
    }
  }

  lemma HangIsGrowth(t: Tables, s: Shape, p: nat, i: nat, c: nat)
    requires CanHang(t, s, p, i, c)
    ensures Growth(t, s, Hang(t, p, i, c), s[c := Node(s[p].level - 1, p, i)])
  {
    var t' := Hang(t, p, i, c);
    HangKeepsTree(t, s, p, i, c);
    forall q, j: nat
      ensures EntryKept(t, s, t', q, j)
    {
      if q in s && j < SLOTS {
        HangEntries(t, s, p, i, c, q, j);
      }
    }
    forall q, w
      ensures SameEntry(t, s, t', q, w)
    {
      if IsTable(s, q, 4) {
        HangKeepsEntries(t, s, p, i, c, q, 4, w);
      }
    }
    forall q, r, j
      ensures SameLink(t, s, t', q, r, j)
    {
      HangKeepsLink(t, s, p, i, c, q, r, j);
    }
  }

  lemma HangKeepsLink(t: Tables, s: Shape, p: nat, i: nat, c: nat, q: nat, r: nat, j: nat)
    requires CanHang(t, s, p, i, c)
    ensures SameLink(t, s, Hang(t, p, i, c), q, r, j)
  {
    if IsTable(s, q, 4) && IsTable(s, r, 4) && q != r && j < SLOTS {
      HangEntries(t, s, p, i, c, q, j);
      HangEntries(t, s, p, i, c, r, j);
      assert SlotOk(t, s, q, j) && SlotOk(t, s, r, j);
    }
  }

  lemma {:induction false} DropKeepsEntries(t: Tables, s: Shape, c: nat, q: nat, level: nat, v: Indices)
    requires TreeOk(t, s) && c !in s && 1 <= level <= 4 && IsTable(s, q, level)
    ensures EntryFrom(t - {c}, q, level, v) == EntryFrom(t, q, level, v)
    decreases level
  {
    var j := v[level - 1];
    if level > 1 && Present(EntryAt(t, q, j)) {
      assert SlotOk(t, s, q, j);
      DropKeepsEntries(t, s, c, FrameOf(EntryAt(t, q, j)), level - 1, v);
    }
  }

  /** Zeroing a page that is no table. */
  lemma DropIsGrowth(t: Tables, s: Shape, c: nat)
    requires TreeOk(t, s) && c !in s
    ensures Growth(t, s, t - {c}, s)
  {
    forall q, j | q in s && 0 <= j < SLOTS
      ensures SlotOk(t - {c}, s, q, j)
    {
      assert SlotOk(t, s, q, j);
    }
    forall q, w
      ensures SameEntry(t, s, t - {c}, q, w)
    {
      if IsTable(s, q, 4) {
        DropKeepsEntries(t, s, c, q, 4, w);
      }
    }
  }

  /** Clearing an entry that is not present. */
  lemma ClearEntries(t: Tables, s: Shape, p: nat, i: nat, q: nat, j: nat)
    requires p in s && i < SLOTS && !Present(EntryAt(t, p, i)) && j < SLOTS
    ensures var e := EntryAt(WithEntry(t, p, i, 0), q, j);
      e == EntryAt(t, q, j) || (q == p && j == i && e == 0)
  {
  }

  lemma {:induction false} ClearKeepsEntries(t: Tables, s: Shape, p: nat, i: nat, q: nat, level: nat, v: Indices)
    requires TreeOk(t, s) && p in s && s[p].level > 1 && i < SLOTS && !Present(EntryAt(t, p, i))
    requires 1 <= level <= 4 && IsTable(s, q, level)
    ensures EntryFrom(WithEntry(t, p, i, 0), q, level, v) == EntryFrom(t, q, level, v)
    decreases level
  {
    var j := v[level - 1];
    ClearEntries(t, s, p, i, q, j);
    if level > 1 && Present(EntryAt(t, q, j)) {
      assert SlotOk(t, s, q, j);
      ClearKeepsEntries(t, s, p, i, FrameOf(EntryAt(t, q, j)), level - 1, v);
    }
  }

  lemma ClearIsGrowth(t: Tables, s: Shape, p: nat, i: nat)
    requires TreeOk(t, s) && p in s && s[p].level > 1 && i < SLOTS && !Present(EntryAt(t, p, i))
    ensures Growth(t, s, WithEntry(t, p, i, 0), s)
  {
    var t' := WithEntry(t, p, i, 0);
    forall q, j | q in s && 0 <= j < SLOTS
      ensures SlotOk(t', s, q, j)
    {
      ClearEntries(t, s, p, i, q, j);
      assert SlotOk(t, s, q, j);
    }
    forall q, w
      ensures SameEntry(t, s, t', q, w)
    {
      if IsTable(s, q, 4) {
        ClearKeepsEntries(t, s, p, i, q, 4, w);
      }
    }
    forall q, r, j
      ensures SameLink(t, s, t', q, r, j)
    {
    }
  }

  ghost predicate RemappedAt(t: Tables, s: Shape, t': Tables, p: nat, v: Indices, e: nat, q: nat, w: Indices)
  {
    IsTable(s, q, 4) ==> PageEntry(t', q, w) == if Touches(t, p, v, q, w) then e else PageEntry(t, q, w)
  }

  /** The entry of page `v` of pagemap `p` is now `e`, there and in pagemaps linked to it; nothing else changed. */
  ghost predicate Remapped(t: Tables, s: Shape, t': Tables, s': Shape, p: nat, v: Indices, e: nat)
  {
    && TreeOk(t, s) && TreeOk(t', s') && IsTable(s, p, 4)
    && (forall q {:trigger SameNode(s, s', q)} :: SameNode(s, s', q))
    && (forall q, w {:trigger RemappedAt(t, s, t', p, v, e, q, w)} :: RemappedAt(t, s, t', p, v, e, q, w))
    && (forall q, r, i {:trigger SameLink(t, s, t', q, r, i)} :: SameLink(t, s, t', q, r, i))
  }

  lemma SetAfterGrowth(t: Tables, s: Shape, t1: Tables, s1: Shape, p: nat, v: Indices, e: nat)
    requires Growth(t, s, t1, s1) && IsTable(s, p, 4) && Leaf(t1, p, 4, v) != 0
    ensures Remapped(t, s, WithEntry(t1, Leaf(t1, p, 4, v), v[0], e), s1, p, v, e)
  {
    var leaf := Leaf(t1, p, 4, v);
    var t2 := WithEntry(t1, leaf, v[0], e);
    assert SameNode(s, s1, p);
    EntryThroughLeaf(t1, s1, p, 4, v);
    SetKeepsTree(t1, s1, leaf, v[0], e);
    forall q, w
      ensures RemappedAt(t, s, t2, p, v, e, q, w)
    {
      assert SameNode(s, s1, q) && SameEntry(t, s, t1, q, w) && SameLink(t, s, t1, p, q, v[3]);
      if IsTable(s, q, 4) {
        SetChangesOnePage(t1, s1, p, v, e, q, w);
      }
    }
    forall q, r, i: nat
      ensures SameLink(t, s, t2, q, r, i)
    {
      assert SameNode(s, s1, q) && SameNode(s, s1, r) && SameLink(t, s, t1, q, r, i);
    }
  }

  /** Where nothing is mapped, nothing has to change. */
  lemma GrowthUnmaps(t: Tables, s: Shape, t': Tables, s': Shape, p: nat, v: Indices)
    requires Growth(t, s, t', s') && IsTable(s, p, 4) && PageEntry(t, p, v) == 0
    ensures Remapped(t, s, t', s', p, v, 0)
  {
    forall q, w
      ensures RemappedAt(t, s, t', p, v, 0, q, w)
    {
      assert SameEntry(t, s, t', q, w);
      if Touches(t, p, v, q, w) && p != q {
        LinkedAreAlike(t, p, q, v);
      }
    }
  }

  // ---------- One pagemap ----------

  ghost predicate OthersKept(t: Tables, t': Tables, pagemap: nat, v: Indices)
  {
    forall w {:trigger PageEntry(t', pagemap, w)} :: w != v ==> PageEntry(t', pagemap, w) == PageEntry(t, pagemap, w)
  }

  lemma GrowthKeepsPagemap(t: Tables, s: Shape, t': Tables, s': Shape, p: nat, v: Indices)
    requires Growth(t, s, t', s') && IsTable(s, p, 4)
    ensures IsTable(s', p, 4) && OthersKept(t, t', p, v) && PageEntry(t', p, v) == PageEntry(t, p, v)
  {
    assert SameNode(s, s', p) && SameEntry(t, s, t', p, v);
    forall w
      ensures PageEntry(t', p, w) == PageEntry(t, p, w)
    {
      assert SameEntry(t, s, t', p, w);
    }
  }

  /** Growth, a new mapping, and zeroing a page that is no table. */
  lemma RemappedOnePage(t: Tables, s: Shape, t1: Tables, s1: Shape, t2: Tables, s2: Shape, p: nat, v: Indices, e: nat, c: nat)
    requires Growth(t, s, t1, s1) && IsTable(s, p, 4) && Remapped(t1, s1, t2, s2, p, v, e) && c !in s2
    ensures TreeOk(t2 - {c}, s2) && IsTable(s2, p, 4)
    ensures OthersKept(t, t2 - {c}, p, v) && PageEntry(t2 - {c}, p, v) == e
  {
    assert SameNode(s1, s2, p) && RemappedAt(t1, s1, t2, p, v, e, p, v);
    DropIsGrowth(t2, s2, c);
    GrowthKeepsPagemap(t, s, t1, s1, p, v);
    GrowthKeepsPagemap(t2, s2, t2 - {c}, s2, p, v);
    forall w | w != v
      ensures PageEntry(t2 - {c}, p, w) == PageEntry(t, p, w)
    {
      assert RemappedAt(t1, s1, t2, p, v, e, p, w);
    }
  }

  // ---------- New pagemaps ----------

  /** The kernel half of `k`, below it nothing. */
  ghost predicate Inherits(row: Table, t: Tables, k: nat)
  {
    forall i {:trigger row[i]} :: 0 <= i < SLOTS ==> row[i] == if i < KERNEL_HALF || k == 0 then 0 else EntryAt(t, k, i)
  }

  /** The copy of the upper 256 entries. */
  method CopyKernelHalf(t: Tables, k: nat) returns (row: Table)
    ensures Inherits(row, t, k)
  {
    row := Zeros(SLOTS);
    if k != 0 {
      var i := KERNEL_HALF;
      while i < SLOTS
        invariant KERNEL_HALF <= i <= SLOTS
        invariant forall j :: 0 <= j < SLOTS ==> row[j] == if KERNEL_HALF <= j < i then EntryAt(t, k, j) else 0
      {
        row := row[i := EntryAt(t, k, i)];
        i := i + 1;
      }
    }
  }

  ghost predicate InheritsAt(t: Tables, t': Tables, k: nat, pm: nat, w: Indices)
  {
    PageEntry(t', pm, w) == if w[3] < KERNEL_HALF || k == 0 then 0 else PageEntry(t, k, w)
  }

  ghost predicate LinkedLikeKernel(t: Tables, s: Shape, t': Tables, k: nat, pm: nat, q: nat, i: nat)
  {
    IsTable(s, q, 4) && i < SLOTS ==>
      (Linked(t', q, pm, i) <==> k != 0 && Linked(t, q, k, i))
  }

  /** `pm` is a new pagemap: empty below the kernel half and linked to the kernel's pagemap `k` above. */
  ghost predicate Opened(t: Tables, s: Shape, t': Tables, s': Shape, k: nat, pm: nat)
  {
    && TreeOk(t, s) && TreeOk(t', s') && pm !in s && s' == s[pm := Node(4, 0, 0)] && (k != 0 ==> IsTable(s, k, 4))
    && (forall q, w {:trigger SameEntry(t, s, t', q, w)} :: SameEntry(t, s, t', q, w))
    && (forall q, r, i {:trigger SameLink(t, s, t', q, r, i)} :: SameLink(t, s, t', q, r, i))
    && (forall w {:trigger InheritsAt(t, t', k, pm, w)} :: InheritsAt(t, t', k, pm, w))
    && (forall q, i {:trigger LinkedLikeKernel(t, s, t', k, pm, q, i)} :: LinkedLikeKernel(t, s, t', k, pm, q, i))
  }

  /** The new pagemap has the kernel slots that are present in `k`. */
  ghost predicate OpenSlot(t: Tables, t': Tables, k: nat, pm: nat, j: nat)
  {
    j < SLOTS ==> (Present(EntryAt(t', pm, j)) <==> j >= KERNEL_HALF && k != 0 && Present(EntryAt(t, k, j)))
  }

  ghost predicate OpenSlots(t: Tables, s: Shape, t': Tables, k: nat, pm: nat)
  {
    SlotsAfter(t, s, t', 0, 0) && forall j {:trigger OpenSlot(t, t', k, pm, j)} :: OpenSlot(t, t', k, pm, j)
  }

  lemma OpenCopiesSlots(t: Tables, s: Shape, k: nat, pm: nat, row: Table)
    requires CanOpen(t, s, k, pm, row)
    ensures OpenSlots(t, s, t[pm := row], k, pm)
  {
    var t' := t[pm := row];
    forall q, j: nat
      ensures SlotAfter(t, s, t', 0, 0, q, j)
    {
    }
    forall j: nat
      ensures OpenSlot(t, t', k, pm, j)
    {
    }
  }

  ghost predicate CanOpen(t: Tables, s: Shape, k: nat, pm: nat, row: Table)
  {
    Inherits(row, t, k) && TreeOk(t, s) && pm !in s && pm != 0 && IsFrame(pm) && (k != 0 ==> IsTable(s, k, 4))
  }

  lemma {:induction false} OpenKeepsEntries(t: Tables, s: Shape, k: nat, pm: nat, row: Table, q: nat, level: nat, v: Indices)
    requires CanOpen(t, s, k, pm, row) && 1 <= level <= 4 && IsTable(s, q, level)
    ensures EntryFrom(t[pm := row], q, level, v) == EntryFrom(t, q, level, v)
    decreases level
  {
    var j := v[level - 1];
    if level > 1 && Present(EntryAt(t, q, j)) {
      assert SlotOk(t, s, q, j);
      OpenKeepsEntries(t, s, k, pm, row, FrameOf(EntryAt(t, q, j)), level - 1, v);
    }
  }

  lemma OpenKeepsTree(t: Tables, s: Shape, k: nat, pm: nat, row: Table)
    requires CanOpen(t, s, k, pm, row)
    ensures TreeOk(t[pm := row], s[pm := Node(4, 0, 0)])
  {
    var t', s' := t[pm := row], s[pm := Node(4, 0, 0)];
    forall q, j | q in s' && 0 <= j < SLOTS
      ensures SlotOk(t', s', q, j)
    {
      assert q in s ==> SlotOk(t, s, q, j);
      assert k in s ==> SlotOk(t, s, k, j);
    }
  }

  lemma OpenInherits(t: Tables, s: Shape, k: nat, pm: nat, row: Table, w: Indices)
    requires CanOpen(t, s, k, pm, row)
    ensures InheritsAt(t, t[pm := row], k, pm, w)
  {
    if k != 0 && w[3] >= KERNEL_HALF && Present(EntryAt(t, k, w[3])) {
      assert SlotOk(t, s, k, w[3]);
      OpenKeepsEntries(t, s, k, pm, row, FrameOf(EntryAt(t, k, w[3])), 3, w);
    }
  }

  lemma OpenOpens(t: Tables, s: Shape, k: nat, pm: nat, row: Table)
    requires CanOpen(t, s, k, pm, row)
    ensures Opened(t, s, t[pm := row], s[pm := Node(4, 0, 0)], k, pm)
  {
    var t' := t[pm := row];
    OpenKeepsTree(t, s, k, pm, row);
    forall q, w
      ensures SameEntry(t, s, t', q, w)
    {
      if IsTable(s, q, 4) {
        OpenKeepsEntries(t, s, k, pm, row, q, 4, w);
      }
    }
    forall w
      ensures InheritsAt(t, t', k, pm, w)
    {
      OpenInherits(t, s, k, pm, row, w);
    }
    forall q, i: nat
      ensures LinkedLikeKernel(t, s, t', k, pm, q, i)
    {
    }
  }
}
