/** ELF images: what the file asks for, and which bytes the loader puts on each page. */
module ElfImage {
  import opened Machine
  import opened PageTables
  import opened PhysicalMemory

  const ELF_MAGIC: nat := 0x464C457F
  const PT_LOAD: nat := 1
  const HEADER_SIZE: nat := 64
  const PHEADER_SIZE: nat := 56
  const VIRTUAL_LIMIT: nat := 0x1_0000_0000_0000

  /** A little-endian field of `n` bytes. */
  function Field(data: seq<nat>, at: nat, n: nat): nat
    requires at + n <= |data|
    decreases |data| - at
  {
    if n == 0 then 0 else data[at] + 256 * Field(data, at + 1, n - 1)
  }

  datatype Segment = Segment(kind: nat, flags: nat, offset: nat, vaddr: nat, filesz: nat, memsz: nat) {
    function PageOffset(): nat { vaddr % PAGE_SIZE }

    function Start(): nat { vaddr / PAGE_SIZE * PAGE_SIZE }

    function Pages(): nat { (PageOffset() + memsz + PAGE_SIZE - 1) / PAGE_SIZE }
  }

  /** Magic, 64-bit class and executable type. */
  predicate GoodHeader(data: seq<nat>)
    requires |data| >= HEADER_SIZE
  {
    Field(data, 0, 4) == ELF_MAGIC && Field(data, 4, 1) == 2 && Field(data, 16, 2) == 2
  }

  function Entry(data: seq<nat>): nat
    requires |data| >= HEADER_SIZE
  {
    Field(data, 24, 8)
  }

  function HeaderCount(data: seq<nat>): nat
    requires |data| >= HEADER_SIZE
  {
    Field(data, 56, 2)
  }

  function HeaderOffset(data: seq<nat>, i: nat): nat
    requires |data| >= HEADER_SIZE
  {
    Field(data, 32, 8) + i * PHEADER_SIZE
  }

  function SegmentAt(data: seq<nat>, i: nat): Segment
    requires |data| >= HEADER_SIZE && HeaderOffset(data, i) + PHEADER_SIZE <= |data|
  {
    var at := HeaderOffset(data, i);
    Segment(Field(data, at, 4), Field(data, at + 4, 4), Field(data, at + 8, 8), Field(data, at + 16, 8),
            Field(data, at + 32, 8), Field(data, at + 40, 8))
  }

  // ---------- Bytes ----------

  /** What the loader writes at byte `j` of page `k` of the segment. */
  function PageByte(data: seq<nat>, s: Segment, k: nat, j: nat): nat
  {
    var at := if k == 0 then s.PageOffset() else 0;
    var from := k * PAGE_SIZE + j - at;
    if at <= j < PAGE_SIZE && from < s.filesz && s.offset + from < |data| then data[s.offset + from] else 0
  }

  /** What the segment asks for at `d` bytes above its address: the file's bytes, then zeros. */
  function WantedByte(data: seq<nat>, s: Segment, d: nat): nat
  {
    if d < s.filesz && s.offset + d < |data| then data[s.offset + d] else 0
  }

  function PlacedByte(data: seq<nat>, s: Segment, d: nat): nat
  {
    PageByte(data, s, (s.PageOffset() + d) / PAGE_SIZE, (s.PageOffset() + d) % PAGE_SIZE)
  }

  ghost predicate RightAt(data: seq<nat>, s: Segment, d: nat)
  {
    PlacedByte(data, s, d) == WantedByte(data, s, d)
  }

  ghost predicate RightImage(data: seq<nat>, s: Segment)
  {
    forall d {:trigger RightAt(data, s, d)} :: 0 <= d < s.memsz ==> RightAt(data, s, d)
  }

  /** The address is page-aligned, or all file bytes fit on the first page. */
  predicate Placeable(s: Segment)
  {
    s.PageOffset() == 0 || s.PageOffset() + s.filesz <= PAGE_SIZE
  }

  lemma PlacedOnFirstPage(data: seq<nat>, s: Segment, d: nat)
    requires s.PageOffset() + d < PAGE_SIZE
    ensures PlacedByte(data, s, d) == WantedByte(data, s, d)
  {
    var j := s.PageOffset() + d;
    assert j / PAGE_SIZE == 0 && j % PAGE_SIZE == j;
  }

  /** From the second page on, the loader reads on as if the address had been aligned. */
  lemma PlacedOnLaterPage(data: seq<nat>, s: Segment, d: nat)
    requires s.PageOffset() + d >= PAGE_SIZE
    ensures PlacedByte(data, s, d) == WantedByte(data, s, s.PageOffset() + d)
  {
    var x := s.PageOffset() + d;
    assert x / PAGE_SIZE > 0 && x / PAGE_SIZE * PAGE_SIZE + x % PAGE_SIZE == x;
  }

  lemma PlaceableIsRight(data: seq<nat>, s: Segment)
    requires Placeable(s)
    ensures RightImage(data, s)
  {
    forall d | 0 <= d < s.memsz
      ensures RightAt(data, s, d)
    {
      if s.PageOffset() + d < PAGE_SIZE {
        PlacedOnFirstPage(data, s, d);
      } else {
        PlacedOnLaterPage(data, s, d);
      }
    }
  }

  /** Reading a whole page offset further on gives the same byte. */
  ghost predicate ShiftUnseen(data: seq<nat>, s: Segment, d: nat)
  {
    WantedByte(data, s, d) == WantedByte(data, s, s.PageOffset() + d)
  }

  /** For any file: right exactly when the shift from the second page on meets equal bytes. */
  lemma RightIffShiftUnseen(data: seq<nat>, s: Segment)
    ensures RightImage(data, s) <==> forall d {:trigger ShiftUnseen(data, s, d)} :: PAGE_SIZE - s.PageOffset() <= d < s.memsz ==> ShiftUnseen(data, s, d)
  {
    forall d: nat | PAGE_SIZE - s.PageOffset() <= d < s.memsz
      ensures RightAt(data, s, d) <==> ShiftUnseen(data, s, d)
    {
      PlacedOnLaterPage(data, s, d);
    }
    forall d: nat | d < PAGE_SIZE - s.PageOffset()
      ensures RightAt(data, s, d)
    {
      PlacedOnFirstPage(data, s, d);
    }
  }

  // ---------- Pages ----------

  function PageAddress(s: Segment, k: nat): nat
  {
    s.Start() + k * PAGE_SIZE
  }

  lemma EndIsRoundedUp(s: Segment)
    ensures PageAddress(s, s.Pages()) == (s.vaddr + s.memsz + PAGE_SIZE - 1) / PAGE_SIZE * PAGE_SIZE
  {
    var n := s.vaddr / PAGE_SIZE;
    assert s.vaddr + s.memsz + PAGE_SIZE - 1 == n * PAGE_SIZE + (s.PageOffset() + s.memsz + PAGE_SIZE - 1);
  }

  ghost predicate PageHolds(page: seq<nat>, data: seq<nat>, s: Segment, k: nat)
  {
    forall j :: 0 <= j < PAGE_SIZE ==> ByteOf(page, j) == PageByte(data, s, k, j)
  }

  ghost predicate SegmentOk(data: seq<nat>, i: nat)
    requires |data| >= HEADER_SIZE
  {
    && HeaderOffset(data, i) + PHEADER_SIZE <= |data|
    && var s := SegmentAt(data, i);
    s.kind == PT_LOAD ==> s.offset + s.filesz <= |data| && s.vaddr + s.memsz <= VIRTUAL_LIMIT
  }

  ghost predicate Loads(data: seq<nat>, i: nat)
    requires |data| >= HEADER_SIZE
  {
    HeaderOffset(data, i) + PHEADER_SIZE <= |data| && SegmentAt(data, i).kind == PT_LOAD
  }

  ghost predicate Before(s: Segment, r: Segment)
  {
    PageAddress(s, s.Pages()) <= r.Start()
  }

  ghost predicate PagesApart(data: seq<nat>, i: nat, j: nat)
    requires |data| >= HEADER_SIZE
  {
    Loads(data, i) && Loads(data, j) && i != j ==>
      Before(SegmentAt(data, i), SegmentAt(data, j)) || Before(SegmentAt(data, j), SegmentAt(data, i))
  }

  /** Headers and file bytes lie in the file, segments below 2^48 and on pages of their own. */
  ghost predicate ImageOk(data: seq<nat>)
    requires |data| >= HEADER_SIZE
  {
    && (forall i {:trigger SegmentOk(data, i)} :: 0 <= i < HeaderCount(data) ==> SegmentOk(data, i))
    && (forall i, j {:trigger PagesApart(data, i, j)} :: 0 <= i < HeaderCount(data) && 0 <= j < HeaderCount(data) ==> PagesApart(data, i, j))
  }

  lemma PageBelowLimit(s: Segment, k: nat)
    requires s.vaddr + s.memsz <= VIRTUAL_LIMIT && k < s.Pages()
    ensures PageAddress(s, k) + PAGE_SIZE <= VIRTUAL_LIMIT && PageAddress(s, k) % PAGE_SIZE == 0
  {
    EndIsRoundedUp(s);
    assert PageAddress(s, k) + PAGE_SIZE <= PageAddress(s, s.Pages());
  }

  lemma DifferentIndices(a: nat, b: nat)
    requires a % PAGE_SIZE == 0 && b % PAGE_SIZE == 0 && a < VIRTUAL_LIMIT && b < VIRTUAL_LIMIT && a != b
    ensures IndicesOf(a) != IndicesOf(b)
  {
    IndicesArePageNumber(a, b);
  }

  /** Different pages of the image have different page-table entries. */
  lemma DifferentPages(data: seq<nat>, i: nat, k: nat, i': nat, k': nat)
    requires |data| >= HEADER_SIZE && ImageOk(data) && i < HeaderCount(data) && i' < HeaderCount(data)
    requires Loads(data, i) && Loads(data, i') && k < SegmentAt(data, i).Pages() && k' < SegmentAt(data, i').Pages()
    requires i != i' || k != k'
    ensures IndicesOf(PageAddress(SegmentAt(data, i), k)) != IndicesOf(PageAddress(SegmentAt(data, i'), k'))
  {
    assert SegmentOk(data, i) && SegmentOk(data, i') && PagesApart(data, i, i');
    PageBelowLimit(SegmentAt(data, i), k);
    PageBelowLimit(SegmentAt(data, i'), k');
    DifferentIndices(PageAddress(SegmentAt(data, i), k), PageAddress(SegmentAt(data, i'), k'));
  }

  // ---------- Flags ----------

  const PF_X: nat := 1
  const PF_W: nat := 2
  const VMM_NX: nat := 0x8000_0000_0000_0000

  /** Present and user, writable and non-executable as the segment says. */
  function FlagsOf(flags: nat): (f: nat)
    ensures IsFlags(f) && f % 2 == 1 && f / 4 % 2 == 1
    ensures f / 2 % 2 == 1 <==> flags / 2 % 2 == 1
    ensures f < 0x1_0000_0000_0000_0000 && (f / 0x8000_0000_0000_0000 == 1 <==> flags % 2 == 0)
  {
    5 + (if flags / PF_W % 2 == 1 then 2 else 0) + if flags % 2 == PF_X then 0 else VMM_NX
  }

  // ---------- Memory ----------

  /** The byte at address `a` as seen through the page table. */
  ghost function MemoryByte(t: Tables, bytes: Bytes, pagemap: nat, a: nat): nat
  {
    ByteOf(PageBytes(bytes, Translate(t, pagemap, IndicesOf(a))), a % PAGE_SIZE)
  }

  ghost predicate PageLoaded(t: Tables, bytes: Bytes, held: set<nat>, pagemap: nat, data: seq<nat>, s: Segment, k: nat)
  {
    var e := PageEntry(t, pagemap, IndicesOf(PageAddress(s, k)));
    FrameOf(e) in held && e == FrameOf(e) + FlagsOf(s.flags) && PageHolds(PageBytes(bytes, FrameOf(e)), data, s, k)
  }

  ghost predicate LoadedAt(t: Tables, bytes: Bytes, held: set<nat>, pagemap: nat, data: seq<nat>, i: nat, k: nat)
    requires |data| >= HEADER_SIZE
  {
    Loads(data, i) && k < SegmentAt(data, i).Pages() ==> PageLoaded(t, bytes, held, pagemap, data, SegmentAt(data, i), k)
  }

  /** All pages of the first `i` segments and the first `k` pages of the next are in memory. */
  ghost predicate LoadedUpTo(t: Tables, bytes: Bytes, held: set<nat>, pagemap: nat, data: seq<nat>, i: nat, k: nat)
    requires |data| >= HEADER_SIZE
  {
    forall i', k' {:trigger LoadedAt(t, bytes, held, pagemap, data, i', k')} ::
      0 <= i' <= i && i' < HeaderCount(data) && 0 <= k' && (i' < i || k' < k) ==> LoadedAt(t, bytes, held, pagemap, data, i', k')
  }

  /** Page `w` is one of the image's. */
  ghost predicate InImage(data: seq<nat>, w: Indices)
    requires |data| >= HEADER_SIZE
  {
    exists i, k :: ImagePage(data, i, k, w)
  }

  ghost predicate ImagePage(data: seq<nat>, i: nat, k: nat, w: Indices)
    requires |data| >= HEADER_SIZE
  {
    i < HeaderCount(data) && Loads(data, i) && k < SegmentAt(data, i).Pages() && w == IndicesOf(PageAddress(SegmentAt(data, i), k))
  }

  /** Pages outside the image keep their entries. */
  ghost predicate OutsideKept(t: Tables, t': Tables, pagemap: nat, data: seq<nat>)
    requires |data| >= HEADER_SIZE
  {
    forall w {:trigger PageEntry(t', pagemap, w)} :: !InImage(data, w) ==> PageEntry(t', pagemap, w) == PageEntry(t, pagemap, w)
  }

  lemma OutsideStaysKept(t: Tables, t1: Tables, t2: Tables, pagemap: nat, data: seq<nat>, i: nat, k: nat)
    requires |data| >= HEADER_SIZE && i < HeaderCount(data) && Loads(data, i) && k < SegmentAt(data, i).Pages()
    requires OutsideKept(t, t1, pagemap, data) && OthersKept(t1, t2, pagemap, IndicesOf(PageAddress(SegmentAt(data, i), k)))
    ensures OutsideKept(t, t2, pagemap, data)
  {
    assert ImagePage(data, i, k, IndicesOf(PageAddress(SegmentAt(data, i), k)));
    forall w | !InImage(data, w)
      ensures PageEntry(t2, pagemap, w) == PageEntry(t, pagemap, w)
    {
      assert PageEntry(t1, pagemap, w) == PageEntry(t, pagemap, w);
    }
  }

  lemma LoadOneMore(t: Tables, b: Bytes, h: set<nat>, t': Tables, b': Bytes, h': set<nat>, pagemap: nat, data: seq<nat>, i: nat, k: nat)
    requires |data| >= HEADER_SIZE && ImageOk(data) && i < HeaderCount(data)
    requires Loads(data, i) && k < SegmentAt(data, i).Pages()
    requires LoadedUpTo(t, b, h, pagemap, data, i, k)
    requires OthersKept(t, t', pagemap, IndicesOf(PageAddress(SegmentAt(data, i), k))) && SameBytes(b, b', h) && h <= h'
    requires PageLoaded(t', b', h', pagemap, data, SegmentAt(data, i), k)
    ensures LoadedUpTo(t', b', h', pagemap, data, i, k + 1)
  {
    forall i', k' | 0 <= i' <= i && i' < HeaderCount(data) && 0 <= k' && (i' < i || k' < k + 1)
      ensures LoadedAt(t', b', h', pagemap, data, i', k')
    {
      if (i' != i || k' != k) && Loads(data, i') && k' < SegmentAt(data, i').Pages() {
        assert LoadedAt(t, b, h, pagemap, data, i', k');
        DifferentPages(data, i, k, i', k');
      }
    }
  }

  lemma SameIndices(s: Segment, d: nat)
    ensures var k := (s.PageOffset() + d) / PAGE_SIZE;
      IndicesOf(s.vaddr + d) == IndicesOf(PageAddress(s, k)) && (s.vaddr + d) % PAGE_SIZE == (s.PageOffset() + d) % PAGE_SIZE
  {
    var k := (s.PageOffset() + d) / PAGE_SIZE;
    var n := s.vaddr / PAGE_SIZE;
    assert s.vaddr + d == n * PAGE_SIZE + (s.PageOffset() + d);
    assert (s.vaddr + d) / PAGE_SIZE == n + k;
    assert PageAddress(s, k) == (n + k) * PAGE_SIZE;
    IndicesArePageNumber(s.vaddr + d, PageAddress(s, k));
  }

  lemma AddressOnPage(s: Segment, d: nat)
    requires d < s.memsz
    ensures (s.PageOffset() + d) / PAGE_SIZE < s.Pages()
  {
  }

  /** What a loaded image reads back as. */
  lemma LoadedReadsBack(t: Tables, b: Bytes, h: set<nat>, pagemap: nat, data: seq<nat>, i: nat, d: nat)
    requires |data| >= HEADER_SIZE && LoadedUpTo(t, b, h, pagemap, data, HeaderCount(data), 0)
    requires i < HeaderCount(data) && Loads(data, i) && d < SegmentAt(data, i).memsz
    ensures var s := SegmentAt(data, i);
      && MemoryByte(t, b, pagemap, s.vaddr + d) == PlacedByte(data, s, d)
      && (Placeable(s) ==> MemoryByte(t, b, pagemap, s.vaddr + d) == WantedByte(data, s, d))
      && var e := PageEntry(t, pagemap, IndicesOf(s.vaddr + d)); e == FrameOf(e) + FlagsOf(s.flags)
  {
    var s := SegmentAt(data, i);
    var k := (s.PageOffset() + d) / PAGE_SIZE;
    AddressOnPage(s, d);
    SameIndices(s, d);
    assert LoadedAt(t, b, h, pagemap, data, i, k);
    if Placeable(s) {
      PlaceableIsRight(data, s);
      assert RightAt(data, s, d);
    }
  }

  lemma TaggedAllows(p: nat, flags: nat, a: Access)
    requires IsFrame(p)
    ensures Allows(p + FlagsOf(flags), a) <==> (a.write ==> flags / 2 % 2 == 1) && (a.fetch ==> flags % 2 == 1)
  {
    EntryBits(p, if flags / 2 % 2 == 1 then 7 else 5, flags % 2 == 0);
  }

  /** Code of the loaded program may read every address of a segment, write it if bit 1 of the segment's flags is set, and run it if bit 0 is. */
  lemma LoadedPermits(t: Tables, shape: Shape, b: Bytes, h: set<nat>, pagemap: nat, data: seq<nat>, i: nat, d: nat, write: bool, fetch: bool)
    requires |data| >= HEADER_SIZE && LoadedUpTo(t, b, h, pagemap, data, HeaderCount(data), 0)
    requires i < HeaderCount(data) && Loads(data, i) && d < SegmentAt(data, i).memsz
    requires TreeOk(t, shape) && IsTable(shape, pagemap, 4)
    ensures var s := SegmentAt(data, i);
      Permits(t, pagemap, 4, IndicesOf(s.vaddr + d), Access(write, true, fetch)) <==> (write ==> s.flags / 2 % 2 == 1) && (fetch ==> s.flags % 2 == 1)
  {
    var s := SegmentAt(data, i);
    var v := IndicesOf(s.vaddr + d);
    var e := PageEntry(t, pagemap, v);
    LoadedReadsBack(t, b, h, pagemap, data, i, d);
    PermitsIffEntryAllows(t, shape, pagemap, 4, v, Access(write, true, fetch));
    TaggedAllows(FrameOf(e), s.flags, Access(write, true, fetch));
  }

  /** Pages the first `i` segments need. */
  ghost function PagesUpTo(data: seq<nat>, i: nat): nat
    requires |data| >= HEADER_SIZE
  {
    if i == 0 then 0
    else PagesUpTo(data, i - 1) + if Loads(data, i - 1) then SegmentAt(data, i - 1).Pages() else 0
  }

  lemma {:induction false} PagesGrow(data: seq<nat>, i: nat, n: nat)
    requires |data| >= HEADER_SIZE && i <= n
    ensures PagesUpTo(data, i) <= PagesUpTo(data, n)
    decreases n - i
  {
    if i < n {
      PagesGrow(data, i + 1, n);
    }
  }
}
