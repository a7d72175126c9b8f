/**
  The arithmetic of the kernel heap, free of pointers: blocks of pages ("majors"),
  each holding allocations ("minors") in address order.  `Liballoc.dfy` shows that
  the linked structure in memory always spells out one of these values.
 */
module HeapLayout {
  import opened Machine
  import opened Sequences

  // Both headers are 40 bytes on x86-64.
  const HEADER: nat := 40
  const MIN_PAGES: nat := 16
  const ALIGNMENT: nat := 16
  const ALIGN_INFO: nat := 16

  // Largest request whose block size still fits an `unsigned int`.
  const MAX_REQUEST: nat := U32 - PAGE_SIZE - 112

  // ---------- Alignment ----------

  /** Bytes that ALIGN adds beyond ALIGN_INFO. */
  function AlignPad(raw: int): int
  {
    var diff := (raw + ALIGN_INFO) % ALIGNMENT;
    if diff != 0 then ALIGNMENT - diff else 0
  }

  /** The pointer ALIGN leaves behind for a raw pointer. */
  function Align(raw: int): int
  {
    raw + ALIGN_INFO + AlignPad(raw)
  }

  /** The pointer UNALIGN leaves behind, given the byte stored ALIGN_INFO in front of `p`. */
  function Unalign(p: int, stored: int): int
  {
    if stored < ALIGNMENT + ALIGN_INFO then p - stored else p
  }

  /** UNALIGN undoes ALIGN; the aligned pointer is a multiple of 16 and moved by less than 32. */
  lemma AlignRoundTrip(raw: int)
    ensures Align(raw) % ALIGNMENT == 0
    ensures raw + ALIGN_INFO <= Align(raw) < raw + ALIGNMENT + ALIGN_INFO
    ensures Unalign(Align(raw), AlignPad(raw) + ALIGN_INFO) == raw
  {
  }

  // ---------- Header sizes ----------

  /** Where a field of `size` bytes ends behind `end` bytes when it is aligned to its own size. */
  function FieldEnd(end: nat, size: nat): nat
    requires size == 4 || size == 8
  {
    if size == 4 then (end + 3) / 4 * 4 + 4 else (end + 7) / 8 * 8 + 8
  }

  /** Two pointers, three unsigned ints and a pointer; three pointers and three unsigned ints: both structs take 40 bytes. */
  lemma HeaderSizes()
    ensures FieldEnd(FieldEnd(FieldEnd(FieldEnd(FieldEnd(FieldEnd(0, 8), 8), 4), 4), 4), 8) == HEADER
    ensures (FieldEnd(FieldEnd(FieldEnd(FieldEnd(FieldEnd(FieldEnd(0, 8), 8), 8), 4), 4), 4) + 7) / 8 * 8 == HEADER
  {
  }

  // ---------- Items and blocks ----------

  /** One live allocation: a header at `at`, then `size` bytes, `req` of them asked for. */
  datatype Item = Item(at: nat, size: nat, req: nat) {
    function End(): nat { at + HEADER + size }

    /** What the caller of malloc holds. */
    function Payload(): int { Align(at + HEADER) }

    /** Where the alignment byte sits. */
    function Mark(): int { Payload() - ALIGN_INFO }
  }

  /** One run of pages: a header at `at`, then room for items. */
  datatype Block = Block(at: nat, pages: nat, items: seq<Item>) {
    function Size(): nat { pages * PAGE_SIZE }
    function End(): nat { at + Size() }
    function Base(): nat { at + HEADER }

    ghost predicate Covers(a: int) { at <= a < End() }
  }

  ghost predicate ItemOk(b: Block, it: Item)
  {
    b.Base() <= it.at && it.End() <= b.End() && it.req + ALIGNMENT + ALIGN_INFO <= it.size
  }

  ghost predicate Precedes(x: Item, y: Item)
  {
    x.End() <= y.at
  }

  /** Items lie inside the block, in address order, without overlap. */
  ghost predicate BlockOk(b: Block)
  {
    && 0 < b.at
    && b.Base() <= b.End()
    && (forall j {:trigger ItemOk(b, b.items[j])} :: 0 <= j < |b.items| ==> ItemOk(b, b.items[j]))
    && (forall j, k {:trigger Precedes(b.items[j], b.items[k])} :: 0 <= j < k < |b.items| ==> Precedes(b.items[j], b.items[k]))
  }

  ghost predicate Apart(b: Block, c: Block)
  {
    b.End() <= c.at || c.End() <= b.at
  }

  ghost predicate BlocksOk(blocks: seq<Block>)
  {
    && (forall i {:trigger BlockOk(blocks[i])} :: 0 <= i < |blocks| ==> BlockOk(blocks[i]))
    && (forall i, k {:trigger Apart(blocks[i], blocks[k])} :: 0 <= i < k < |blocks| ==> Apart(blocks[i], blocks[k]))
  }

  /** The state between calls: a block without items has been given back. */
  ghost predicate WellFormed(blocks: seq<Block>)
  {
    && BlocksOk(blocks)
    && (forall i :: 0 <= i < |blocks| ==> blocks[i].items != [])
  }

  /** Every block's size fits the `unsigned int` that holds it. */
  ghost predicate Bounded(blocks: seq<Block>)
  {
    forall i :: 0 <= i < |blocks| ==> blocks[i].Size() < U32
  }

  // ---------- Accounting ----------

  ghost function Sizes(items: seq<Item>): nat
  {
    if items == [] then 0 else items[0].size + Sizes(items[1..])
  }

  /** What the `usage` field holds: one header for the block and one per item, plus the items' sizes. */
  ghost function Usage(b: Block): nat
  {
    HEADER + HEADER * |b.items| + Sizes(b.items)
  }

  ghost function Free(b: Block): int
  {
    b.Size() - Usage(b)
  }

  ghost function InUse(blocks: seq<Block>): nat
  {
    if blocks == [] then 0 else Sizes(blocks[0].items) + InUse(blocks[1..])
  }

  ghost function Allocated(blocks: seq<Block>): nat
  {
    if blocks == [] then 0 else blocks[0].Size() + Allocated(blocks[1..])
  }

  lemma {:induction false} SizesConcat(a: seq<Item>, b: seq<Item>)
    ensures Sizes(a + b) == Sizes(a) + Sizes(b)
  {
    if a == [] {
      assert a + b == b;
    } else {
      assert (a + b)[1..] == a[1..] + b;
      SizesConcat(a[1..], b);
    }
  }

  lemma {:induction false} TotalsConcat(a: seq<Block>, b: seq<Block>)
    ensures InUse(a + b) == InUse(a) + InUse(b)
    ensures Allocated(a + b) == Allocated(a) + Allocated(b)
  {
    if a == [] {
      assert a + b == b;
    } else {
      assert (a + b)[1..] == a[1..] + b;
      TotalsConcat(a[1..], b);
    }
  }

  lemma TotalsOfOne(b: Block)
    ensures InUse([b]) == Sizes(b.items)
    ensures Allocated([b]) == b.pages * 4096
    ensures |b.items| == 1 ==> Sizes(b.items) == b.items[0].size && Usage(b) == 80 + b.items[0].size
  {
  }

  /** Both totals of a list with the block at `i` singled out. */
  lemma TotalsAround(blocks: seq<Block>, i: nat)
    requires i < |blocks|
    ensures InUse(blocks) == InUse(blocks[..i]) + Sizes(blocks[i].items) + InUse(blocks[i + 1..])
    ensures Allocated(blocks) == Allocated(blocks[..i]) + blocks[i].Size() + Allocated(blocks[i + 1..])
  {
    var front, b, rest := blocks[..i], blocks[i], blocks[i + 1..];
    Around(blocks, i);
    TotalsConcat(front, [b] + rest);
    TotalsConcat([b], rest);
    TotalsOfOne(b);
  }

  // ---------- Gaps ----------

  /** The first byte of the gap in front of item `j`; `j == |items|` is the gap at the end. */
  function GapLo(b: Block, j: nat): nat
    requires j <= |b.items|
  {
    if j == 0 then b.Base() else b.items[j - 1].End()
  }

  function GapHi(b: Block, j: nat): nat
    requires j <= |b.items|
  {
    if j == |b.items| then b.End() else b.items[j].at
  }

  /** The gap in front of item `j` takes a header and `need` more bytes. */
  predicate Fits(b: Block, j: nat, need: nat)
    requires j <= |b.items|
  {
    GapLo(b, j) + HEADER + need <= GapHi(b, j)
  }

  lemma {:induction false} PackedBelow(b: Block, j: nat)
    requires BlockOk(b) && j <= |b.items|
    ensures b.Base() + HEADER * j + Sizes(b.items[..j]) <= GapLo(b, j)
  {
    if j > 0 {
      PackedBelow(b, j - 1);
      assert b.items[..j] == b.items[..j - 1] + [b.items[j - 1]];
      SizesConcat(b.items[..j - 1], [b.items[j - 1]]);
      if j > 1 {
        assert Precedes(b.items[j - 2], b.items[j - 1]);
      } else {
        assert ItemOk(b, b.items[0]);
      }
    }
  }

  lemma {:induction false} PackedAbove(b: Block, j: nat)
    requires BlockOk(b) && j <= |b.items|
    ensures GapHi(b, j) + HEADER * (|b.items| - j) + Sizes(b.items[j..]) <= b.End()
    decreases |b.items| - j
  {
    if j < |b.items| {
      PackedAbove(b, j + 1);
      assert b.items[j..] == [b.items[j]] + b.items[j + 1..];
      SizesConcat([b.items[j]], b.items[j + 1..]);
      if j + 1 < |b.items| {
        assert Precedes(b.items[j], b.items[j + 1]);
      } else {
        assert ItemOk(b, b.items[j]);
      }
    }
  }

  /** `size - usage` bounds every gap, which is what lets malloc skip a block on that field alone. */
  lemma GapNeedsFree(b: Block, j: nat)
    requires BlockOk(b) && j <= |b.items|
    ensures GapHi(b, j) - GapLo(b, j) <= Free(b)
  {
    PackedBelow(b, j);
    PackedAbove(b, j);
    assert b.items == b.items[..j] + b.items[j..];
    SizesConcat(b.items[..j], b.items[j..]);
  }

  lemma FreeIsNonNegative(b: Block)
    requires BlockOk(b)
    ensures 0 <= Free(b)
  {
    GapNeedsFree(b, 0);
    if b.items != [] {
      assert ItemOk(b, b.items[0]);
    }
  }

  /** The first gap at or after `from` that fits; past the end when there is none. */
  function FirstGap(b: Block, need: nat, from: nat): (j: nat)
    requires from <= |b.items| + 1
    ensures from <= j <= |b.items| + 1
    ensures j <= |b.items| ==> Fits(b, j, need)
    ensures forall k :: from <= k < j && k <= |b.items| ==> !Fits(b, k, need)
    decreases |b.items| + 1 - from
  {
    if from > |b.items| || Fits(b, from, need) then from else FirstGap(b, need, from + 1)
  }

  predicate HasGap(b: Block, need: nat)
  {
    FirstGap(b, need, 0) <= |b.items|
  }

  lemma SkippedBlockHasNoGap(b: Block, need: nat)
    requires BlockOk(b)
    requires Free(b) < need + HEADER
    ensures !HasGap(b, need)
  {
    if HasGap(b, need) {
      GapNeedsFree(b, FirstGap(b, need, 0));
    }
  }

  /** The first block at or after `from` with a gap that fits; `|blocks|` when there is none. */
  function FirstBlock(blocks: seq<Block>, need: nat, from: nat): (i: nat)
    requires from <= |blocks|
    ensures from <= i <= |blocks|
    ensures i < |blocks| ==> HasGap(blocks[i], need)
    ensures forall k :: from <= k < i ==> !HasGap(blocks[k], need)
    decreases |blocks| - from
  {
    if from == |blocks| || HasGap(blocks[from], need) then from else FirstBlock(blocks, need, from + 1)
  }

  // ---------- Choosing a place ----------

  datatype Spot = Gap(i: nat, j: nat) | FreshBlock

  ghost predicate SpotOk(blocks: seq<Block>, need: nat, s: Spot)
  {
    s.Gap? ==> s.i < |blocks| && s.j <= |blocks[s.i].items| && Fits(blocks[s.i], s.j, need)
  }

  /** First fit from block `start` on, then first fit from the root, then a fresh block. */
  function Choose(blocks: seq<Block>, need: nat, start: nat): (s: Spot)
    requires start <= |blocks|
    ensures SpotOk(blocks, need, s)
    ensures s.FreshBlock? <==> (forall i, j :: 0 <= i < |blocks| && 0 <= j <= |blocks[i].items| ==> !Fits(blocks[i], j, need))
  {
    var i := FirstBlock(blocks, need, start);
    if i < |blocks| then Gap(i, FirstGap(blocks[i], need, 0))
    else
      var k := FirstBlock(blocks, need, 0);
      if k < |blocks| then Gap(k, FirstGap(blocks[k], need, 0)) else
        assert forall i :: 0 <= i < |blocks| ==> !HasGap(blocks[i], need);
        FreshBlock
  }

  /** A gap fits when a 40-byte header and the bytes needed lie between the end of what is in front and what is behind. */
  lemma FitsIs(b: Block, j: nat, need: nat)
    requires j <= |b.items|
    ensures Fits(b, j, need) <==>
      (if j == 0 then b.at + 40 else b.items[j - 1].at + 40 + b.items[j - 1].size) + 40 + need
      <= (if j == |b.items| then b.at + b.pages * 4096 else b.items[j].at)
  {
  }

  /** First fit: no gap is passed over between the start and the one chosen. */
  lemma ChooseIsFirstFit(blocks: seq<Block>, need: nat, start: nat, k: nat, l: nat)
    requires start <= |blocks| && Choose(blocks, need, start).Gap? && k < |blocks| && l <= |blocks[k].items| && Fits(blocks[k], l, need)
    ensures var s := Choose(blocks, need, start);
      && (start <= k ==> start <= s.i <= k)
      && (k < start ==> start <= s.i || s.i <= k)
      && (k == s.i ==> s.j <= l)
  {
    assert HasGap(blocks[k], need);
  }

  /** Pages asked of the page provider for an item of `size` bytes. */
  function PagesFor(size: nat): (n: nat)
    ensures n >= 16 && n * 4096 >= size + 80
    ensures n > 16 ==> (n - 1) * 4096 < size + 80
  {
    var st := size + HEADER + HEADER;
    var pages := if st % PAGE_SIZE == 0 then st / PAGE_SIZE else st / PAGE_SIZE + 1;
    if pages < MIN_PAGES then MIN_PAGES else pages
  }

  function WithItem(b: Block, j: nat, it: Item): Block
    requires j <= |b.items|
  {
    b.(items := b.items[..j] + [it] + b.items[j..])
  }

  function WithoutItem(b: Block, j: nat): Block
    requires j < |b.items|
  {
    b.(items := b.items[..j] + b.items[j + 1..])
  }

  function ItemIn(b: Block, j: nat, req: nat): Item
    requires j <= |b.items|
  {
    Item(GapLo(b, j), req + ALIGNMENT + ALIGN_INFO, req)
  }

  function FreshBlockAt(at: nat, req: nat): Block
  {
    var size := req + ALIGNMENT + ALIGN_INFO;
    Block(at, PagesFor(size), [Item(at + HEADER, size, req)])
  }

  /** The page provider hands out non-null ranges apart from every block it has handed out before. */
  ghost predicate GrantOk(blocks: seq<Block>, grant: nat, pages: nat)
  {
    grant != 0 ==> forall i :: 0 <= i < |blocks| ==> Apart(Block(grant, pages, []), blocks[i])
  }

  /** The heap after malloc found `s`; a `grant` of 0 is a refusal by the page provider. */
  function AfterMalloc(blocks: seq<Block>, req: nat, s: Spot, grant: nat): seq<Block>
    requires s.Gap? ==> s.i < |blocks| && s.j <= |blocks[s.i].items|
  {
    match s
    case Gap(i, j) => blocks[i := WithItem(blocks[i], j, ItemIn(blocks[i], j, req))]
    case FreshBlock => if grant == 0 then blocks else blocks + [FreshBlockAt(grant, req)]
  }

  function NewItem(blocks: seq<Block>, req: nat, s: Spot, grant: nat): Item
    requires s.Gap? ==> s.i < |blocks| && s.j <= |blocks[s.i].items|
  {
    match s
    case Gap(i, j) => ItemIn(blocks[i], j, req)
    case FreshBlock => FreshBlockAt(grant, req).items[0]
  }

  /** The new item: 32 bytes more than asked for, behind the gap's left end or the fresh block's header, its payload 16-aligned. */
  lemma NewItemIs(blocks: seq<Block>, req: nat, s: Spot, grant: nat)
    requires SpotOk(blocks, req + 32, s)
    ensures var it := NewItem(blocks, req, s, grant);
      && it.req == req && it.size == req + 32
      && it.at == (if s.FreshBlock? then grant + 40 else if s.j == 0 then blocks[s.i].at + 40
                   else blocks[s.i].items[s.j - 1].at + 40 + blocks[s.i].items[s.j - 1].size)
      && it.at + 56 <= it.Payload() < it.at + 72 && it.Payload() % 16 == 0
  {
  }

  /** The heap after freeing item `j` of block `i`: an emptied block goes back to the page provider. */
  function AfterFree(blocks: seq<Block>, i: nat, j: nat): seq<Block>
    requires i < |blocks| && j < |blocks[i].items|
  {
    if |blocks[i].items| == 1 then blocks[..i] + blocks[i + 1..]
    else blocks[i := WithoutItem(blocks[i], j)]
  }

  // ---------- Both operations keep the heap well formed ----------

  /** Everything in front of a gap ends before it and everything behind starts after it. */
  lemma GapEdges(b: Block, j: nat)
    requires BlockOk(b) && j <= |b.items|
    ensures b.Base() <= GapLo(b, j) && GapHi(b, j) <= b.End()
    ensures forall k :: 0 <= k < j ==> b.items[k].End() <= GapLo(b, j)
    ensures forall k :: j <= k < |b.items| ==> GapHi(b, j) <= b.items[k].at
  {
    if j > 0 {
      assert ItemOk(b, b.items[j - 1]);
    }
    if j < |b.items| {
      assert ItemOk(b, b.items[j]);
    }
    forall k | 0 <= k < j
      ensures b.items[k].End() <= GapLo(b, j)
    {
      if k < j - 1 {
        assert ItemOk(b, b.items[j - 1]);
        assert Precedes(b.items[k], b.items[j - 1]);
      }
    }
    forall k | j <= k < |b.items|
      ensures GapHi(b, j) <= b.items[k].at
    {
      if j < k {
        assert Precedes(b.items[j], b.items[k]);
      }
    }
  }

  /** The item fills the front of gap `j`. */
  ghost predicate InGap(b: Block, j: nat, it: Item)
  {
    && BlockOk(b) && ItemOk(b, it) && j <= |b.items|
    && (forall k {:trigger Precedes(b.items[k], it)} :: 0 <= k < j ==> Precedes(b.items[k], it))
    && (forall k {:trigger Precedes(it, b.items[k])} :: j <= k < |b.items| ==> Precedes(it, b.items[k]))
  }

  lemma ChosenInGap(b: Block, j: nat, req: nat)
    requires BlockOk(b) && j <= |b.items| && Fits(b, j, req + ALIGNMENT + ALIGN_INFO)
    ensures InGap(b, j, ItemIn(b, j, req))
  {
    GapEdges(b, j);
  }

  lemma InGapKeepsBlockOk(b: Block, j: nat, it: Item)
    requires InGap(b, j, it)
    ensures BlockOk(WithItem(b, j, it))
  {
    var c := WithItem(b, j, it);
    forall k | 0 <= k < |c.items|
      ensures ItemOk(c, c.items[k])
    {
      if k != j {
        assert ItemOk(b, b.items[if k < j then k else k - 1]);
      }
    }
    forall k, l | 0 <= k < l < |c.items|
      ensures Precedes(c.items[k], c.items[l])
    {
      if l == j {
        assert Precedes(b.items[k], it);
      } else if k == j {
        assert Precedes(it, b.items[l - 1]);
      } else {
        assert Precedes(b.items[if k < j then k else k - 1], b.items[if l < j then l else l - 1]);
      }
    }
  }

  lemma InsertUsage(b: Block, j: nat, it: Item)
    requires j <= |b.items|
    ensures Sizes(WithItem(b, j, it).items) == Sizes(b.items) + it.size
    ensures Usage(WithItem(b, j, it)) == Usage(b) + HEADER + it.size
  {
    assert b.items == b.items[..j] + b.items[j..];
    SizesConcat(b.items[..j], b.items[j..]);
    SizesConcat(b.items[..j] + [it], b.items[j..]);
    SizesConcat(b.items[..j], [it]);
  }

  lemma RemoveUsage(b: Block, j: nat)
    requires j < |b.items|
    ensures Sizes(WithoutItem(b, j).items) == Sizes(b.items) - b.items[j].size
    ensures Usage(WithoutItem(b, j)) == Usage(b) - HEADER - b.items[j].size
  {
    var c := WithoutItem(b, j);
    assert WithItem(c, j, b.items[j]) == b;
    InsertUsage(c, j, b.items[j]);
  }

  lemma RemoveKeepsBlockOk(b: Block, j: nat)
    requires BlockOk(b) && j < |b.items|
    ensures BlockOk(WithoutItem(b, j))
  {
    var c := WithoutItem(b, j);
    forall k | 0 <= k < |c.items|
      ensures ItemOk(c, c.items[k])
    {
      assert ItemOk(b, b.items[if k < j then k else k + 1]);
    }
    forall k, l | 0 <= k < l < |c.items|
      ensures Precedes(c.items[k], c.items[l])
    {
      assert Precedes(b.items[if k < j then k else k + 1], b.items[if l < j then l else l + 1]);
    }
  }

  lemma ReplaceKeepsBlocksOk(blocks: seq<Block>, i: nat, c: Block)
    requires BlocksOk(blocks) && i < |blocks| && BlockOk(c)
    requires c.at == blocks[i].at && c.pages == blocks[i].pages
    ensures BlocksOk(blocks[i := c])
  {
    var after := blocks[i := c];
    forall k | 0 <= k < |after|
      ensures BlockOk(after[k])
    {
      assert BlockOk(blocks[k]);
    }
    forall k, l | 0 <= k < l < |after|
      ensures Apart(after[k], after[l])
    {
      assert Apart(blocks[k], blocks[l]);
    }
  }

  lemma MallocKeepsWellFormed(blocks: seq<Block>, req: nat, s: Spot, grant: nat)
    requires WellFormed(blocks) && SpotOk(blocks, req + ALIGNMENT + ALIGN_INFO, s)
    requires GrantOk(blocks, grant, PagesFor(req + ALIGNMENT + ALIGN_INFO))
    ensures WellFormed(AfterMalloc(blocks, req, s, grant))
  {
    match s
    case Gap(i, j) =>
      ChosenInGap(blocks[i], j, req);
      InGapKeepsBlockOk(blocks[i], j, ItemIn(blocks[i], j, req));
      ReplaceKeepsBlocksOk(blocks, i, WithItem(blocks[i], j, ItemIn(blocks[i], j, req)));
    case FreshBlock =>
      if grant != 0 {
        var b := FreshBlockAt(grant, req);
        assert BlockOk(b) by { assert ItemOk(b, b.items[0]); }
        assert forall i :: 0 <= i < |blocks| ==> Apart(Block(grant, b.pages, []), blocks[i]);
        assert forall i :: 0 <= i < |blocks| ==> Apart(blocks[i], b);
      }
  }

  lemma FreeKeepsWellFormed(blocks: seq<Block>, i: nat, j: nat)
    requires WellFormed(blocks) && i < |blocks| && j < |blocks[i].items|
    ensures WellFormed(AfterFree(blocks, i, j))
  {
    if |blocks[i].items| == 1 {
      var rest := blocks[..i] + blocks[i + 1..];
      assert forall k :: 0 <= k < |rest| ==> rest[k] == blocks[if k < i then k else k + 1];
    } else {
      RemoveKeepsBlockOk(blocks[i], j);
      ReplaceKeepsBlocksOk(blocks, i, WithoutItem(blocks[i], j));
    }
  }

  /** A request up to MAX_REQUEST never makes a block whose size wraps. */
  lemma MallocKeepsBounded(blocks: seq<Block>, req: nat, s: Spot, grant: nat)
    requires Bounded(blocks) && req <= MAX_REQUEST && SpotOk(blocks, req + ALIGNMENT + ALIGN_INFO, s)
    ensures Bounded(AfterMalloc(blocks, req, s, grant))
  {
    var size := req + ALIGNMENT + ALIGN_INFO;
    assert PagesFor(size) > 16 ==> (PagesFor(size) - 1) * 4096 < size + 80;
  }

  /** MAX_REQUEST is the largest such request. */
  lemma LargerRequestWraps(req: nat)
    ensures FreshBlockAt(1, req).Size() < U32 <==> req <= MAX_REQUEST
  {
  }

  lemma FreeKeepsBounded(blocks: seq<Block>, i: nat, j: nat)
    requires Bounded(blocks) && i < |blocks| && j < |blocks[i].items|
    ensures Bounded(AfterFree(blocks, i, j))
  {
    var after := AfterFree(blocks, i, j);
    assert forall k :: 0 <= k < |after| ==> after[k].Size() == blocks[if |blocks[i].items| > 1 || k < i then k else k + 1].Size();
  }

  // ---------- What callers rely on ----------

  ghost predicate Live(blocks: seq<Block>, i: int, j: int)
  {
    0 <= i < |blocks| && 0 <= j < |blocks[i].items|
  }

  /** A payload is 16-aligned, its bytes and its alignment byte are the item's own. */
  lemma PayloadInsideItem(b: Block, it: Item)
    requires ItemOk(b, it)
    ensures it.Payload() % 16 == 0
    ensures it.at + HEADER <= it.Mark() < it.Payload()
    ensures it.Payload() + it.req <= it.End()
  {
    AlignRoundTrip(it.at + HEADER);
  }

  /** Different items occupy disjoint ranges, outside every block header. */
  lemma ItemsDisjoint(blocks: seq<Block>, i: nat, j: nat, k: nat, l: nat)
    requires BlocksOk(blocks) && Live(blocks, i, j) && Live(blocks, k, l) && (i != k || j != l)
    ensures blocks[i].items[j].End() <= blocks[k].items[l].at || blocks[k].items[l].End() <= blocks[i].items[j].at
  {
    assert BlockOk(blocks[i]) && BlockOk(blocks[k]);
    assert ItemOk(blocks[i], blocks[i].items[j]) && ItemOk(blocks[k], blocks[k].items[l]);
    if i < k {
      assert Apart(blocks[i], blocks[k]);
    } else if k < i {
      assert Apart(blocks[k], blocks[i]);
    } else if j < l {
      assert Precedes(blocks[i].items[j], blocks[k].items[l]);
    } else {
      assert Precedes(blocks[k].items[l], blocks[i].items[j]);
    }
  }

  /** Payload bytes of one item meet no header, alignment byte or payload of another, and no block header. */
  lemma PayloadIsExclusive(blocks: seq<Block>, i: nat, j: nat, k: nat, l: nat, a: int)
    requires BlocksOk(blocks) && Live(blocks, i, j) && Live(blocks, k, l)
    requires var it := blocks[i].items[j]; it.Payload() <= a < it.Payload() + it.req
    ensures a != blocks[k].items[l].Mark()
    ensures !(blocks[k].items[l].at <= a < blocks[k].items[l].at + HEADER)
    ensures !(blocks[k].at <= a < blocks[k].Base())
    ensures (i != k || j != l) ==> !(blocks[k].items[l].Payload() <= a < blocks[k].items[l].Payload() + blocks[k].items[l].req)
  {
    assert BlockOk(blocks[i]) && BlockOk(blocks[k]);
    assert ItemOk(blocks[i], blocks[i].items[j]) && ItemOk(blocks[k], blocks[k].items[l]);
    PayloadInsideItem(blocks[i], blocks[i].items[j]);
    PayloadInsideItem(blocks[k], blocks[k].items[l]);
    if i != k || j != l {
      ItemsDisjoint(blocks, i, j, k, l);
    }
    if i < k {
      assert Apart(blocks[i], blocks[k]);
    } else if k < i {
      assert Apart(blocks[k], blocks[i]);
    }
  }

  /** An address is the header of at most one live item. */
  lemma HeaderIsUnique(blocks: seq<Block>, i: nat, j: nat, k: nat, l: nat)
    requires BlocksOk(blocks) && Live(blocks, i, j) && Live(blocks, k, l)
    requires blocks[i].items[j].at == blocks[k].items[l].at
    ensures i == k && j == l
  {
    if i != k || j != l {
      ItemsDisjoint(blocks, i, j, k, l);
    }
  }

  /** Address `a` is one of the bytes the caller asked for in item `j` of block `i`. */
  ghost predicate InPayload(blocks: seq<Block>, i: int, j: int, a: int)
  {
    Live(blocks, i, j) && blocks[i].items[j].Payload() <= a < blocks[i].items[j].Payload() + blocks[i].items[j].req
  }

  /** Where an item is found after malloc has placed another one. */
  function Shifted(s: Spot, i: nat, j: nat): (nat, nat)
  {
    if s.Gap? && s.i == i && s.j <= j then (i, j + 1) else (i, j)
  }

  /** Where the new item is found. */
  function NewIndex(blocks: seq<Block>, s: Spot): (nat, nat)
  {
    if s.Gap? then (s.i, s.j) else (|blocks|, 0)
  }

  lemma MallocShifts(blocks: seq<Block>, req: nat, s: Spot, grant: nat, i: nat, j: nat)
    requires SpotOk(blocks, req + ALIGNMENT + ALIGN_INFO, s) && Live(blocks, i, j)
    ensures var after, k := AfterMalloc(blocks, req, s, grant), Shifted(s, i, j);
      Live(after, k.0, k.1) && after[k.0].items[k.1] == blocks[i].items[j]
    ensures Shifted(s, i, j) != NewIndex(blocks, s)
  {
  }

  lemma MallocAdds(blocks: seq<Block>, req: nat, s: Spot, grant: nat)
    requires SpotOk(blocks, req + ALIGNMENT + ALIGN_INFO, s) && (s.FreshBlock? ==> grant != 0)
    ensures var after, k := AfterMalloc(blocks, req, s, grant), NewIndex(blocks, s);
      Live(after, k.0, k.1) && after[k.0].items[k.1] == NewItem(blocks, req, s, grant)
  {
  }

  /**
    Freeing what malloc just placed gives back the very heap malloc started from:
    the same blocks, items, usages and totals, wherever it was placed.
   */
  lemma FreeUndoesMalloc(blocks: seq<Block>, req: nat, s: Spot, grant: nat, k: nat, l: nat)
    requires WellFormed(blocks) && SpotOk(blocks, req + ALIGNMENT + ALIGN_INFO, s)
    requires GrantOk(blocks, grant, PagesFor(req + ALIGNMENT + ALIGN_INFO))
    requires s.FreshBlock? ==> grant != 0
    requires Live(AfterMalloc(blocks, req, s, grant), k, l)
    requires AfterMalloc(blocks, req, s, grant)[k].items[l].at == NewItem(blocks, req, s, grant).at
    ensures AfterFree(AfterMalloc(blocks, req, s, grant), k, l) == blocks
  {
    var after := AfterMalloc(blocks, req, s, grant);
    MallocKeepsWellFormed(blocks, req, s, grant);
    match s
    case Gap(i, j) =>
      HeaderIsUnique(after, i, j, k, l);
      assert WithoutItem(after[i], j).items == blocks[i].items;
    case FreshBlock =>
      HeaderIsUnique(after, |blocks|, 0, k, l);
  }
}
