/**
  The kernel heap as it lies in memory.  Pointers are addresses, 0 is NULL, and the
  headers that the C code reaches through pointers are records stored at their address.
  `Spells` ties such a memory to a `HeapLayout` value; the lemmas follow the pointer
  writes of malloc and free and show that they spell the layout they should.
 */
module HeapMemory {
  import opened Machine
  import opened HeapLayout

  const MAGIC: nat := 0xc001c0de
  const DEAD: nat := 0xdeaddead

  type byte = x: int | 0 <= x < 256

  datatype Major = Major(prev: nat, next: nat, pages: nat, size: nat, usage: nat, first: nat)
  datatype Minor = Minor(prev: nat, next: nat, block: nat, magic: nat, size: nat, req: nat)

  type Majors = map<int, Major>
  type Minors = map<int, Minor>
  type Bytes = map<int, byte>

  /** Pages arrive zeroed, so an address nobody wrote reads as 0. */
  function Peek(bytes: Bytes, a: int): byte
  {
    if a in bytes then bytes[a] else 0
  }

  /** The header free and realloc look at for a pointer. */
  function HeaderOf(bytes: Bytes, ptr: int): int
  {
    Unalign(ptr, Peek(bytes, ptr - ALIGN_INFO)) - HEADER
  }

  // ---------- What the headers say ----------

  function PrevBlock(blocks: seq<Block>, i: nat): nat
    requires i < |blocks|
  {
    if i == 0 then 0 else blocks[i - 1].at
  }

  function NextBlock(blocks: seq<Block>, i: nat): nat
    requires i < |blocks|
  {
    if i + 1 == |blocks| then 0 else blocks[i + 1].at
  }

  function FirstItem(b: Block): nat
  {
    if b.items == [] then 0 else b.items[0].at
  }

  ghost function MajorOf(blocks: seq<Block>, i: nat): Major
    requires i < |blocks|
  {
    var b := blocks[i];
    Major(PrevBlock(blocks, i), NextBlock(blocks, i), b.pages, b.Size(), Usage(b), FirstItem(b))
  }

  function PrevItem(b: Block, j: nat): nat
    requires j <= |b.items|
  {
    if j == 0 then 0 else b.items[j - 1].at
  }

  /** The item behind position `j`. */
  function NextItem(b: Block, j: nat): nat
    requires j < |b.items|
  {
    if j + 1 == |b.items| then 0 else b.items[j + 1].at
  }

  function MinorOf(b: Block, j: nat): Minor
    requires j < |b.items|
  {
    Minor(PrevItem(b, j), NextItem(b, j), b.at, MAGIC, b.items[j].size, b.items[j].req)
  }

  ghost predicate IsBlock(blocks: seq<Block>, at: int)
  {
    exists i :: 0 <= i < |blocks| && blocks[i].at == at
  }

  ghost predicate MajorAt(majors: Majors, blocks: seq<Block>, i: int)
  {
    0 <= i < |blocks| && blocks[i].at in majors && majors[blocks[i].at] == MajorOf(blocks, i)
  }

  /** Every block has its header with both links, and there are no other block headers. */
  ghost predicate MajorsMatch(majors: Majors, blocks: seq<Block>)
  {
    && (forall i :: 0 <= i < |blocks| ==> MajorAt(majors, blocks, i))
    && (forall a {:trigger IsBlock(blocks, a)} :: a in majors ==> IsBlock(blocks, a))
  }

  ghost predicate MinorAt(minors: Minors, b: Block, j: int)
  {
    0 <= j < |b.items| && b.items[j].at in minors && minors[b.items[j].at] == MinorOf(b, j)
  }

  /** Every item has its header with both links. */
  ghost predicate MinorsMatch(minors: Minors, b: Block)
  {
    forall j :: 0 <= j < |b.items| ==> MinorAt(minors, b, j)
  }

  ghost predicate IsItem(b: Block, at: int)
  {
    exists j :: 0 <= j < |b.items| && b.items[j].at == at
  }

  /** Inside the block, only items carry the live magic number. */
  ghost predicate NoStrays(minors: Minors, b: Block)
  {
    forall a {:trigger IsItem(b, a)} :: a in minors && b.Covers(a) && minors[a].magic == MAGIC ==> IsItem(b, a)
  }

  ghost predicate HasMark(bytes: Bytes, it: Item)
  {
    it.Mark() in bytes && bytes[it.Mark()] == AlignPad(it.at + HEADER) + ALIGN_INFO
  }

  /** The alignment byte of every item is in place. */
  ghost predicate Marked(bytes: Bytes, b: Block)
  {
    forall j {:trigger HasMark(bytes, b.items[j])} :: 0 <= j < |b.items| ==> HasMark(bytes, b.items[j])
  }

  ghost predicate BlockMatch(minors: Minors, bytes: Bytes, b: Block)
  {
    MinorsMatch(minors, b) && NoStrays(minors, b) && Marked(bytes, b)
  }

  ghost predicate InBlock(blocks: seq<Block>, a: int)
  {
    exists i :: 0 <= i < |blocks| && blocks[i].Covers(a)
  }

  /** Item headers, live or dead, only exist inside blocks. */
  ghost predicate Homed(minors: Minors, blocks: seq<Block>)
  {
    forall a {:trigger InBlock(blocks, a)} :: a in minors ==> InBlock(blocks, a)
  }

  /** Memory spells out exactly these blocks. */
  ghost predicate Spells(majors: Majors, minors: Minors, bytes: Bytes, blocks: seq<Block>)
  {
    && MajorsMatch(majors, blocks)
    && (forall i {:trigger BlockMatch(minors, bytes, blocks[i])} :: 0 <= i < |blocks| ==> BlockMatch(minors, bytes, blocks[i]))
    && Homed(minors, blocks)
  }

  // ---------- Adding an empty block at the end ----------

  ghost function LinkBlock(majors: Majors, blocks: seq<Block>, at: nat, pages: nat): Majors
    requires MajorsMatch(majors, blocks)
  {
    var major := Major(if blocks == [] then 0 else blocks[|blocks| - 1].at, 0, pages, pages * PAGE_SIZE, HEADER, 0);
    if blocks == [] then majors[at := major]
    else
      assert MajorAt(majors, blocks, |blocks| - 1);
      var last := blocks[|blocks| - 1].at;
      majors[at := major][last := majors[last].(next := at)]
  }

  lemma AppendMajors(majors: Majors, blocks: seq<Block>, at: nat, pages: nat)
    requires BlocksOk(blocks) && MajorsMatch(majors, blocks)
    requires forall i :: 0 <= i < |blocks| ==> blocks[i].at != at
    ensures MajorsMatch(LinkBlock(majors, blocks, at, pages), blocks + [Block(at, pages, [])])
  {
    var after := blocks + [Block(at, pages, [])];
    var majors' := LinkBlock(majors, blocks, at, pages);
    HeadersDiffer(blocks);
    forall i | 0 <= i < |after|
      ensures MajorAt(majors', after, i)
    {
      if i < |blocks| {
        assert MajorAt(majors, blocks, i);
      }
    }
    forall a | a in majors'
      ensures IsBlock(after, a)
    {
      if a == at {
        assert after[|blocks|].at == a;
      } else {
        assert IsBlock(blocks, a);
        var i :| 0 <= i < |blocks| && blocks[i].at == a;
        assert after[i].at == a;
      }
    }
  }

  lemma GrantIsApart(blocks: seq<Block>, at: nat, pages: nat)
    requires BlocksOk(blocks) && at != 0 && HEADER <= pages * PAGE_SIZE && GrantOk(blocks, at, pages)
    ensures BlocksOk(blocks + [Block(at, pages, [])])
    ensures forall i :: 0 <= i < |blocks| ==> blocks[i].at != at
    ensures forall i, a :: 0 <= i < |blocks| && blocks[i].Covers(a) ==> !Block(at, pages, []).Covers(a)
  {
    forall i | 0 <= i < |blocks|
      ensures Apart(blocks[i], Block(at, pages, [])) && blocks[i].at != at
    {
      assert Apart(Block(at, pages, []), blocks[i]) && BlockOk(blocks[i]);
    }
  }

  /** Bytes of a range that was handed out zeroed. */
  function Zeroed(bytes: Bytes, lo: int, hi: int): Bytes
  {
    map a | a in bytes && !(lo <= a < hi) :: bytes[a]
  }

  lemma AppendSpells(majors: Majors, minors: Minors, bytes: Bytes, blocks: seq<Block>, at: nat, pages: nat)
    requires BlocksOk(blocks) && Spells(majors, minors, bytes, blocks)
    requires at != 0 && HEADER <= pages * PAGE_SIZE && GrantOk(blocks, at, pages)
    ensures BlocksOk(blocks + [Block(at, pages, [])])
    ensures Spells(LinkBlock(majors, blocks, at, pages), minors, Zeroed(bytes, at, at + pages * PAGE_SIZE), blocks + [Block(at, pages, [])])
  {
    var b := Block(at, pages, []);
    var after := blocks + [b];
    var bytes' := Zeroed(bytes, at, at + pages * PAGE_SIZE);
    GrantIsApart(blocks, at, pages);
    AppendMajors(majors, blocks, at, pages);
    forall a | a in minors
      ensures !b.Covers(a) && InBlock(after, a)
    {
      assert InBlock(blocks, a);
      var i :| 0 <= i < |blocks| && blocks[i].Covers(a);
      assert after[i].Covers(a);
    }
    forall i | 0 <= i < |blocks|
      ensures BlockMatch(minors, bytes', blocks[i])
    {
      assert SameInBlock(bytes, bytes', blocks[i]);
      MatchFrame(minors, minors, bytes, bytes', blocks[i]);
    }
    assert BlockMatch(minors, bytes', b);
  }

  lemma HeadersDiffer(blocks: seq<Block>)
    requires BlocksOk(blocks)
    ensures forall i, k :: 0 <= i < k < |blocks| ==> blocks[i].at != blocks[k].at
  {
    forall i, k | 0 <= i < k < |blocks|
      ensures blocks[i].at != blocks[k].at
    {
      assert Apart(blocks[i], blocks[k]) && BlockOk(blocks[i]) && BlockOk(blocks[k]);
    }
  }

  // ---------- Placing an item ----------

  /** Writing a header or handing out an item leaves no readable old header in its range. */
  function Clobber(minors: Minors, lo: int, hi: int): Minors
  {
    map a | a in minors && (a + HEADER <= lo || hi <= a) :: minors[a]
  }

  /** The bytes after a header was written at `at`. */
  function UnderHeader(bytes: Bytes, at: int): Bytes
  {
    map a | a in bytes && !(at <= a < at + HEADER) :: bytes[a]
  }

  ghost function LinkMinors(minors: Minors, b: Block, j: nat, it: Item): Minors
    requires MinorsMatch(minors, b) && j <= |b.items|
  {
    assert j > 0 ==> MinorAt(minors, b, j - 1);
    assert j < |b.items| ==> MinorAt(minors, b, j);
    var next := if j == |b.items| then 0 else b.items[j].at;
    var m := Clobber(minors, it.at, it.End())[it.at := Minor(PrevItem(b, j), next, b.at, MAGIC, it.size, it.req)];
    var m' := if j == 0 then m else m[b.items[j - 1].at := minors[b.items[j - 1].at].(next := it.at)];
    if j == |b.items| then m' else m'[b.items[j].at := minors[b.items[j].at].(prev := it.at)]
  }

  ghost function LinkMajors(majors: Majors, blocks: seq<Block>, i: nat, j: nat, it: Item): Majors
    requires MajorsMatch(majors, blocks) && i < |blocks|
  {
    assert MajorAt(majors, blocks, i);
    var m := majors[blocks[i].at];
    majors[blocks[i].at := m.(usage := m.usage + it.size + HEADER, first := if j == 0 then it.at else m.first)]
  }

  function Mark(bytes: Bytes, it: Item): Bytes
  {
    UnderHeader(bytes, it.at)[it.Mark() := AlignPad(it.at + HEADER) + ALIGN_INFO]
  }

  /** The same headers at every address of a block. */
  ghost predicate SameHeaders(minors: Minors, minors': Minors, c: Block)
  {
    forall a :: c.Covers(a) ==> (a in minors <==> a in minors') && (a in minors ==> minors'[a] == minors[a])
  }

  ghost predicate SameInBlock(bytes: Bytes, bytes': Bytes, c: Block)
  {
    forall a :: c.Covers(a) ==> (a in bytes <==> a in bytes') && (a in bytes ==> bytes'[a] == bytes[a])
  }

  lemma MatchFrame(minors: Minors, minors': Minors, bytes: Bytes, bytes': Bytes, c: Block)
    requires BlockOk(c) && BlockMatch(minors, bytes, c)
    requires SameHeaders(minors, minors', c) && SameInBlock(bytes, bytes', c)
    ensures BlockMatch(minors', bytes', c)
  {
    forall j | 0 <= j < |c.items|
      ensures c.Covers(c.items[j].at) && c.Covers(c.items[j].Mark())
    {
      assert ItemOk(c, c.items[j]);
      PayloadInsideItem(c, c.items[j]);
    }
    forall j | 0 <= j < |c.items|
      ensures MinorAt(minors', c, j) && HasMark(bytes', c.items[j])
    {
      assert MinorAt(minors, c, j) && HasMark(bytes, c.items[j]);
    }
    forall a | a in minors' && c.Covers(a) && minors'[a].magic == MAGIC
      ensures IsItem(c, a)
    {
      assert a in minors && minors[a].magic == MAGIC;
    }
  }

  /** The writes of case 4.2 amount to `LinkMinors`. */
  lemma LinkBetween(minors: Minors, b: Block, j: nat, it: Item)
    requires InGap(b, j, it) && MinorsMatch(minors, b) && 0 < j < |b.items|
    ensures var prev, next := b.items[j - 1].at, b.items[j].at;
      && prev in minors && minors[prev].size == b.items[j - 1].size && minors[prev].next == next
      && var m := Clobber(minors, it.at, it.End())[it.at := Minor(prev, next, b.at, MAGIC, it.size, it.req)];
         && next in m
         && var m' := m[next := m[next].(prev := it.at)];
            prev in m' && m'[prev := m'[prev].(next := it.at)] == LinkMinors(minors, b, j, it)
  {
    assert MinorAt(minors, b, j - 1) && MinorAt(minors, b, j);
    assert Precedes(b.items[j - 1], it) && Precedes(it, b.items[j]);
  }

  /** The writes of case 4.1 amount to `LinkMinors`. */
  lemma LinkAtEnd(minors: Minors, b: Block, it: Item)
    requires InGap(b, |b.items|, it) && MinorsMatch(minors, b) && b.items != []
    ensures var last := b.items[|b.items| - 1].at;
      && last in minors && minors[last].size == b.items[|b.items| - 1].size
      && var m := Clobber(minors, it.at, it.End())[it.at := Minor(last, 0, b.at, MAGIC, it.size, it.req)];
         last in m && m[last := m[last].(next := it.at)] == LinkMinors(minors, b, |b.items|, it)
  {
    assert MinorAt(minors, b, |b.items| - 1);
    assert Precedes(b.items[|b.items| - 1], it);
  }

  /** The writes of case 3 amount to `LinkMinors`. */
  lemma LinkInFront(minors: Minors, b: Block, it: Item)
    requires InGap(b, 0, it) && MinorsMatch(minors, b) && b.items != []
    ensures var first := b.items[0].at;
      && var m := Clobber(minors, it.at, it.End())[it.at := Minor(0, first, b.at, MAGIC, it.size, it.req)];
         first in m && m[first := m[first].(prev := it.at)] == LinkMinors(minors, b, 0, it)
  {
    assert MinorAt(minors, b, 0);
    assert Precedes(it, b.items[0]);
  }

  /** What item `k`'s header says once `it` is linked in at `j`. */
  lemma LinkedHeader(minors: Minors, b: Block, j: nat, it: Item, k: nat)
    requires InGap(b, j, it) && MinorsMatch(minors, b) && k < |b.items|
    ensures var m := LinkMinors(minors, b, j, it);
      && b.items[k].at in m
      && m[b.items[k].at] == (if k + 1 == j then MinorOf(b, k).(next := it.at)
                              else if k == j then MinorOf(b, k).(prev := it.at) else MinorOf(b, k))
  {
    assert MinorAt(minors, b, k);
    NeighboursInOrder(b, j, k);
    if k < j {
      assert Precedes(b.items[k], it);
    } else {
      assert Precedes(it, b.items[k]);
    }
  }

  /** Item `k` is none of the two items around gap `j` unless it is next to the gap. */
  lemma NeighboursInOrder(b: Block, j: nat, k: nat)
    requires BlockOk(b) && j <= |b.items| && k < |b.items|
    ensures j > 0 && k != j - 1 ==> b.items[k].at != b.items[j - 1].at
    ensures j < |b.items| && k != j ==> b.items[k].at != b.items[j].at
  {
    ItemHeadersDiffer(b);
  }

  lemma PlaceMinors(minors: Minors, b: Block, j: nat, it: Item)
    requires InGap(b, j, it) && MinorsMatch(minors, b)
    ensures MinorsMatch(LinkMinors(minors, b, j, it), WithItem(b, j, it))
  {
    var c := WithItem(b, j, it);
    forall k | 0 <= k < |c.items|
      ensures MinorAt(LinkMinors(minors, b, j, it), c, k)
    {
      if k < j {
        LinkedHeader(minors, b, j, it, k);
      } else if k > j {
        LinkedHeader(minors, b, j, it, k - 1);
      } else {
        LinkedNewHeader(minors, b, j, it);
      }
    }
  }

  lemma LinkedNewHeader(minors: Minors, b: Block, j: nat, it: Item)
    requires InGap(b, j, it) && MinorsMatch(minors, b)
    ensures MinorAt(LinkMinors(minors, b, j, it), WithItem(b, j, it), j)
  {
    assert j > 0 ==> Precedes(b.items[j - 1], it);
    assert j < |b.items| ==> Precedes(it, b.items[j]);
  }

  lemma PlaceStrays(minors: Minors, b: Block, j: nat, it: Item)
    requires InGap(b, j, it) && MinorsMatch(minors, b) && NoStrays(minors, b)
    ensures NoStrays(LinkMinors(minors, b, j, it), WithItem(b, j, it))
  {
    var c := WithItem(b, j, it);
    var minors' := LinkMinors(minors, b, j, it);
    forall a | a in minors' && c.Covers(a) && minors'[a].magic == MAGIC
      ensures IsItem(c, a)
    {
      if a == it.at {
        assert c.items[j].at == a;
      } else {
        assert IsItem(b, a);
        var k :| 0 <= k < |b.items| && b.items[k].at == a;
        assert c.items[if k < j then k else k + 1].at == a;
      }
    }
  }

  lemma PlaceMarks(bytes: Bytes, b: Block, j: nat, it: Item)
    requires InGap(b, j, it) && Marked(bytes, b)
    ensures Marked(Mark(bytes, it), WithItem(b, j, it))
  {
    var c := WithItem(b, j, it);
    var bytes' := Mark(bytes, it);
    PayloadInsideItem(b, it);
    forall k | 0 <= k < |c.items|
      ensures HasMark(bytes', c.items[k])
    {
      if k != j {
        var l := if k < j then k else k - 1;
        assert c.items[k] == b.items[l];
        assert ItemOk(b, b.items[l]);
        PayloadInsideItem(b, b.items[l]);
        assert HasMark(bytes, b.items[l]);
        assert if k < j then Precedes(b.items[l], it) else Precedes(it, b.items[l]);
      }
    }
  }

  /** Placing an item writes nothing outside its block. */
  lemma PlaceStaysInBlock(minors: Minors, bytes: Bytes, b: Block, j: nat, it: Item, c: Block)
    requires InGap(b, j, it) && MinorsMatch(minors, b) && Apart(b, c)
    ensures SameHeaders(minors, LinkMinors(minors, b, j, it), c)
    ensures SameInBlock(bytes, Mark(bytes, it), c)
  {
    PayloadInsideItem(b, it);
    if j > 0 {
      assert ItemOk(b, b.items[j - 1]);
    }
    if j < |b.items| {
      assert ItemOk(b, b.items[j]);
    }
  }

  lemma PlaceMajors(majors: Majors, blocks: seq<Block>, i: nat, j: nat, it: Item)
    requires BlocksOk(blocks) && MajorsMatch(majors, blocks) && i < |blocks| && j <= |blocks[i].items|
    ensures MajorsMatch(LinkMajors(majors, blocks, i, j, it), blocks[i := WithItem(blocks[i], j, it)])
  {
    var after := blocks[i := WithItem(blocks[i], j, it)];
    assert MajorAt(majors, blocks, i);
    var majors' := LinkMajors(majors, blocks, i, j, it);
    InsertUsage(blocks[i], j, it);
    HeadersDiffer(blocks);
    assert forall k :: 0 <= k < |after| ==> after[k].at == blocks[k].at;
    forall k | 0 <= k < |after|
      ensures MajorAt(majors', after, k)
    {
      assert MajorAt(majors, blocks, k);
    }
    forall a | a in majors'
      ensures IsBlock(after, a)
    {
      assert IsBlock(blocks, a);
      var k :| 0 <= k < |blocks| && blocks[k].at == a;
      assert after[k].at == a;
    }
  }

  lemma PlaceHomed(minors: Minors, blocks: seq<Block>, i: nat, j: nat, it: Item)
    requires Homed(minors, blocks) && i < |blocks| && InGap(blocks[i], j, it) && MinorsMatch(minors, blocks[i])
    ensures Homed(LinkMinors(minors, blocks[i], j, it), blocks[i := WithItem(blocks[i], j, it)])
  {
    var after := blocks[i := WithItem(blocks[i], j, it)];
    assert j > 0 ==> MinorAt(minors, blocks[i], j - 1);
    assert j < |blocks[i].items| ==> MinorAt(minors, blocks[i], j);
    forall a | a in LinkMinors(minors, blocks[i], j, it)
      ensures InBlock(after, a)
    {
      if a == it.at {
        assert after[i].Covers(a);
      } else {
        assert a in minors;
        assert InBlock(blocks, a);
        var k :| 0 <= k < |blocks| && blocks[k].Covers(a);
        assert after[k].Covers(a);
      }
    }
  }

  lemma PlaceSpells(majors: Majors, minors: Minors, bytes: Bytes, blocks: seq<Block>, i: nat, j: nat, it: Item)
    requires BlocksOk(blocks) && Spells(majors, minors, bytes, blocks) && i < |blocks| && InGap(blocks[i], j, it)
    ensures BlockMatch(minors, bytes, blocks[i])
    ensures Spells(LinkMajors(majors, blocks, i, j, it), LinkMinors(minors, blocks[i], j, it), Mark(bytes, it),
                   blocks[i := WithItem(blocks[i], j, it)])
  {
    var b := blocks[i];
    assert BlockMatch(minors, bytes, b);
    PlaceMajors(majors, blocks, i, j, it);
    PlaceHomed(minors, blocks, i, j, it);
    PlaceMinors(minors, b, j, it);
    PlaceStrays(minors, b, j, it);
    PlaceMarks(bytes, b, j, it);
    forall k | 0 <= k < |blocks| && k != i
      ensures BlockMatch(LinkMinors(minors, b, j, it), Mark(bytes, it), blocks[k])
    {
      assert Apart(b, blocks[k]) by {
        if i < k { assert Apart(blocks[i], blocks[k]); } else { assert Apart(blocks[k], blocks[i]); }
      }
      PlaceStaysInBlock(minors, bytes, b, j, it, blocks[k]);
      MatchFrame(minors, LinkMinors(minors, b, j, it), bytes, Mark(bytes, it), blocks[k]);
    }
  }

  // ---------- Taking an item out ----------

  ghost function UnlinkMinors(minors: Minors, b: Block, j: nat): Minors
    requires MinorsMatch(minors, b) && j < |b.items|
  {
    assert MinorAt(minors, b, j);
    assert j > 0 ==> MinorAt(minors, b, j - 1);
    assert j + 1 < |b.items| ==> MinorAt(minors, b, j + 1);
    var at := b.items[j].at;
    var m := minors[at := minors[at].(magic := DEAD)];
    var m' := if j + 1 == |b.items| then m else m[b.items[j + 1].at := minors[b.items[j + 1].at].(prev := PrevItem(b, j))];
    if j == 0 then m' else m'[b.items[j - 1].at := minors[b.items[j - 1].at].(next := NextItem(b, j))]
  }

  ghost function UnlinkMajors(majors: Majors, blocks: seq<Block>, i: nat, j: nat): Majors
    requires MajorsMatch(majors, blocks) && i < |blocks| && j < |blocks[i].items|
  {
    assert MajorAt(majors, blocks, i);
    var b := blocks[i];
    var m := majors[b.at];
    majors[b.at := m.(usage := Usage(WithoutItem(b, j)), first := if j == 0 then NextItem(b, 0) else m.first)]
  }

  lemma ItemHeadersDiffer(b: Block)
    requires BlockOk(b)
    ensures forall j, k :: 0 <= j < k < |b.items| ==> b.items[j].at < b.items[k].at
  {
    forall j, k | 0 <= j < k < |b.items|
      ensures b.items[j].at < b.items[k].at
    {
      assert Precedes(b.items[j], b.items[k]);
    }
  }

  /** The writes of free amount to `UnlinkMinors`. */
  lemma UnlinkWrites(minors: Minors, b: Block, j: nat)
    requires BlockOk(b) && MinorsMatch(minors, b) && j < |b.items|
    ensures var min := b.items[j].at;
      && min in minors && minors[min] == MinorOf(b, j)
      && var m := minors[min := minors[min].(magic := DEAD)];
         && (NextItem(b, j) != 0 ==> NextItem(b, j) in m)
         && var m' := if NextItem(b, j) == 0 then m else m[NextItem(b, j) := m[NextItem(b, j)].(prev := PrevItem(b, j))];
            && (PrevItem(b, j) != 0 ==> PrevItem(b, j) in m')
            && (if PrevItem(b, j) == 0 then m' else m'[PrevItem(b, j) := m'[PrevItem(b, j)].(next := NextItem(b, j))])
               == UnlinkMinors(minors, b, j)
    ensures PrevItem(b, j) == 0 <==> j == 0
  {
    ItemHeadersDiffer(b);
    assert MinorAt(minors, b, j);
    if j > 0 {
      assert MinorAt(minors, b, j - 1) && ItemOk(b, b.items[j - 1]);
    }
    if j + 1 < |b.items| {
      assert MinorAt(minors, b, j + 1) && ItemOk(b, b.items[j + 1]);
    }
  }

  lemma UnlinkedHeader(minors: Minors, b: Block, j: nat, k: nat)
    requires BlockOk(b) && MinorsMatch(minors, b) && j < |b.items| && k < |b.items| && k != j
    ensures var m := UnlinkMinors(minors, b, j);
      && b.items[k].at in m
      && m[b.items[k].at] == (if k + 1 == j then MinorOf(b, k).(next := NextItem(b, j))
                              else if k == j + 1 then MinorOf(b, k).(prev := PrevItem(b, j)) else MinorOf(b, k))
  {
    ItemHeadersDiffer(b);
    assert MinorAt(minors, b, k);
  }

  /** The header an item should have once item `j` is gone, in terms of the block before. */
  lemma HeaderWithout(b: Block, j: nat, k: nat)
    requires j < |b.items| && k < |b.items| && k != j
    ensures var c, l := WithoutItem(b, j), if k < j then k else k - 1;
      && l < |c.items| && c.items[l] == b.items[k]
      && MinorOf(c, l) == (if k + 1 == j then MinorOf(b, k).(next := NextItem(b, j))
                           else if k == j + 1 then MinorOf(b, k).(prev := PrevItem(b, j)) else MinorOf(b, k))
  {
    var c, l := WithoutItem(b, j), if k < j then k else k - 1;
    assert l > 0 ==> c.items[l - 1] == b.items[if l - 1 < j then l - 1 else l];
    assert l + 1 < |c.items| ==> c.items[l + 1] == b.items[if l + 1 < j then l + 1 else l + 2];
  }

  lemma RemoveMinors(minors: Minors, b: Block, j: nat)
    requires BlockOk(b) && MinorsMatch(minors, b) && j < |b.items|
    ensures MinorsMatch(UnlinkMinors(minors, b, j), WithoutItem(b, j))
  {
    var c := WithoutItem(b, j);
    forall l | 0 <= l < |c.items|
      ensures MinorAt(UnlinkMinors(minors, b, j), c, l)
    {
      var k := if l < j then l else l + 1;
      UnlinkedHeader(minors, b, j, k);
      HeaderWithout(b, j, k);
    }
  }

  lemma UnlinkOnlyKills(minors: Minors, b: Block, j: nat, a: int)
    requires BlockOk(b) && MinorsMatch(minors, b) && j < |b.items|
    ensures a in UnlinkMinors(minors, b, j) <==> a in minors
    ensures a in minors && a != b.items[j].at ==> UnlinkMinors(minors, b, j)[a].magic == minors[a].magic
    ensures UnlinkMinors(minors, b, j)[b.items[j].at].magic == DEAD
  {
    ItemHeadersDiffer(b);
    assert MinorAt(minors, b, j);
    assert j > 0 ==> MinorAt(minors, b, j - 1);
    assert j + 1 < |b.items| ==> MinorAt(minors, b, j + 1);
  }

  lemma RemoveStrays(minors: Minors, b: Block, j: nat)
    requires BlockOk(b) && MinorsMatch(minors, b) && NoStrays(minors, b) && j < |b.items|
    ensures NoStrays(UnlinkMinors(minors, b, j), WithoutItem(b, j))
  {
    var c := WithoutItem(b, j);
    forall a | a in UnlinkMinors(minors, b, j) && c.Covers(a) && UnlinkMinors(minors, b, j)[a].magic == MAGIC
      ensures IsItem(c, a)
    {
      UnlinkOnlyKills(minors, b, j, a);
      assert IsItem(b, a);
      var k :| 0 <= k < |b.items| && b.items[k].at == a;
      HeaderWithout(b, j, k);
    }
  }

  lemma RemoveMarks(bytes: Bytes, b: Block, j: nat)
    requires Marked(bytes, b) && j < |b.items|
    ensures Marked(bytes, WithoutItem(b, j))
  {
    var c := WithoutItem(b, j);
    forall l | 0 <= l < |c.items|
      ensures c.items[l] == b.items[if l < j then l else l + 1]
    {
    }
  }

  lemma UnlinkStaysInBlock(minors: Minors, b: Block, j: nat, c: Block)
    requires BlockOk(b) && MinorsMatch(minors, b) && j < |b.items| && Apart(b, c)
    ensures SameHeaders(minors, UnlinkMinors(minors, b, j), c)
  {
    assert ItemOk(b, b.items[j]);
    if j > 0 {
      assert ItemOk(b, b.items[j - 1]);
    }
    if j + 1 < |b.items| {
      assert ItemOk(b, b.items[j + 1]);
    }
  }

  lemma RemoveMajors(majors: Majors, blocks: seq<Block>, i: nat, j: nat)
    requires BlocksOk(blocks) && MajorsMatch(majors, blocks) && i < |blocks| && j < |blocks[i].items|
    ensures MajorsMatch(UnlinkMajors(majors, blocks, i, j), blocks[i := WithoutItem(blocks[i], j)])
  {
    var after := blocks[i := WithoutItem(blocks[i], j)];
    var majors' := UnlinkMajors(majors, blocks, i, j);
    RemoveUsage(blocks[i], j);
    HeadersDiffer(blocks);
    assert forall k :: 0 <= k < |after| ==> after[k].at == blocks[k].at;
    forall k | 0 <= k < |after|
      ensures MajorAt(majors', after, k)
    {
      assert MajorAt(majors, blocks, k);
    }
    forall a | a in majors'
      ensures IsBlock(after, a)
    {
      assert IsBlock(blocks, a);
      var k :| 0 <= k < |blocks| && blocks[k].at == a;
      assert after[k].at == a;
    }
  }

  lemma RemoveHomed(minors: Minors, blocks: seq<Block>, i: nat, j: nat)
    requires Homed(minors, blocks) && i < |blocks| && BlockOk(blocks[i]) && MinorsMatch(minors, blocks[i]) && j < |blocks[i].items|
    ensures Homed(UnlinkMinors(minors, blocks[i], j), blocks[i := WithoutItem(blocks[i], j)])
  {
    var after := blocks[i := WithoutItem(blocks[i], j)];
    forall a | a in UnlinkMinors(minors, blocks[i], j)
      ensures InBlock(after, a)
    {
      UnlinkOnlyKills(minors, blocks[i], j, a);
      assert InBlock(blocks, a);
      var k :| 0 <= k < |blocks| && blocks[k].Covers(a);
      assert after[k].Covers(a);
    }
  }

  lemma UnlinkOther(minors: Minors, bytes: Bytes, blocks: seq<Block>, i: nat, j: nat, k: nat)
    requires BlocksOk(blocks) && i < |blocks| && j < |blocks[i].items| && k < |blocks| && k != i
    requires MinorsMatch(minors, blocks[i]) && BlockMatch(minors, bytes, blocks[k])
    ensures BlockMatch(UnlinkMinors(minors, blocks[i], j), bytes, blocks[k])
  {
    assert Apart(blocks[i], blocks[k]) by {
      if i < k { assert Apart(blocks[i], blocks[k]); } else { assert Apart(blocks[k], blocks[i]); }
    }
    UnlinkStaysInBlock(minors, blocks[i], j, blocks[k]);
    MatchFrame(minors, UnlinkMinors(minors, blocks[i], j), bytes, bytes, blocks[k]);
  }

  lemma RemoveSpells(majors: Majors, minors: Minors, bytes: Bytes, blocks: seq<Block>, i: nat, j: nat)
    requires BlocksOk(blocks) && Spells(majors, minors, bytes, blocks) && i < |blocks| && j < |blocks[i].items|
    ensures BlocksOk(blocks[i := WithoutItem(blocks[i], j)])
    ensures BlockMatch(minors, bytes, blocks[i])
    ensures Spells(UnlinkMajors(majors, blocks, i, j), UnlinkMinors(minors, blocks[i], j), bytes,
                   blocks[i := WithoutItem(blocks[i], j)])
  {
    var b := blocks[i];
    assert BlockMatch(minors, bytes, b);
    RemoveKeepsBlockOk(b, j);
    ReplaceKeepsBlocksOk(blocks, i, WithoutItem(b, j));
    RemoveMajors(majors, blocks, i, j);
    RemoveHomed(minors, blocks, i, j);
    RemoveMinors(minors, b, j);
    RemoveStrays(minors, b, j);
    RemoveMarks(bytes, b, j);
    forall k | 0 <= k < |blocks| && k != i
      ensures BlockMatch(UnlinkMinors(minors, b, j), bytes, blocks[k])
    {
      UnlinkOther(minors, bytes, blocks, i, j, k);
    }
  }

  // ---------- Giving an empty block back ----------

  function Released(minors: Minors, lo: int, hi: int): Minors
  {
    map a | a in minors && !(lo <= a < hi) :: minors[a]
  }

  ghost function DropMajor(majors: Majors, blocks: seq<Block>, i: nat): Majors
    requires MajorsMatch(majors, blocks) && i < |blocks|
  {
    assert i > 0 ==> MajorAt(majors, blocks, i - 1);
    assert i + 1 < |blocks| ==> MajorAt(majors, blocks, i + 1);
    var m := if i == 0 then majors else majors[blocks[i - 1].at := majors[blocks[i - 1].at].(next := NextBlock(blocks, i))];
    var m' := if i + 1 == |blocks| then m else m[blocks[i + 1].at := majors[blocks[i + 1].at].(prev := PrevBlock(blocks, i))];
    m' - {blocks[i].at}
  }

  /** The writes of free on an emptied block amount to `DropMajor`. */
  lemma DropWrites(majors: Majors, blocks: seq<Block>, i: nat)
    requires BlocksOk(blocks) && MajorsMatch(majors, blocks) && i < |blocks|
    ensures blocks[i].at in majors && majors[blocks[i].at] == MajorOf(blocks, i)
    ensures PrevBlock(blocks, i) == 0 <==> i == 0
    ensures i > 0 ==> blocks[0].at != blocks[i].at
    ensures var prev, next := PrevBlock(blocks, i), NextBlock(blocks, i);
      && (prev != 0 ==> prev in majors)
      && var m := if prev == 0 then majors else majors[prev := majors[prev].(next := next)];
         && (next != 0 ==> next in m)
         && (if next == 0 then m else m[next := m[next].(prev := prev)]) - {blocks[i].at} == DropMajor(majors, blocks, i)
  {
    HeadersDiffer(blocks);
    assert MajorAt(majors, blocks, i);
    if i > 0 {
      assert MajorAt(majors, blocks, i - 1) && BlockOk(blocks[i - 1]);
    }
    if i + 1 < |blocks| {
      assert MajorAt(majors, blocks, i + 1) && BlockOk(blocks[i + 1]);
    }
  }

  lemma DroppedHeader(majors: Majors, blocks: seq<Block>, i: nat, k: nat)
    requires BlocksOk(blocks) && MajorsMatch(majors, blocks) && i < |blocks| && k < |blocks| && k != i
    ensures var m := DropMajor(majors, blocks, i);
      && blocks[k].at in m
      && m[blocks[k].at] == (if k + 1 == i then MajorOf(blocks, k).(next := NextBlock(blocks, i))
                             else if k == i + 1 then MajorOf(blocks, k).(prev := PrevBlock(blocks, i)) else MajorOf(blocks, k))
  {
    HeadersDiffer(blocks);
    assert MajorAt(majors, blocks, k);
  }

  /** The header a block should have once block `i` is gone. */
  lemma MajorWithout(blocks: seq<Block>, i: nat, k: nat)
    requires i < |blocks| && k < |blocks| && k != i
    ensures var after, l := blocks[..i] + blocks[i + 1..], if k < i then k else k - 1;
      && l < |after| && after[l] == blocks[k]
      && MajorOf(after, l) == (if k + 1 == i then MajorOf(blocks, k).(next := NextBlock(blocks, i))
                               else if k == i + 1 then MajorOf(blocks, k).(prev := PrevBlock(blocks, i)) else MajorOf(blocks, k))
  {
    var after, l := blocks[..i] + blocks[i + 1..], if k < i then k else k - 1;
    assert after[l] == blocks[k];
    assert l > 0 ==> after[l - 1] == blocks[if l - 1 < i then l - 1 else l];
    assert l + 1 < |after| ==> after[l + 1] == blocks[if l + 1 < i then l + 1 else l + 2];
  }

  lemma DropMajors(majors: Majors, blocks: seq<Block>, i: nat)
    requires BlocksOk(blocks) && MajorsMatch(majors, blocks) && i < |blocks|
    ensures MajorsMatch(DropMajor(majors, blocks, i), blocks[..i] + blocks[i + 1..])
  {
    var after := blocks[..i] + blocks[i + 1..];
    forall l | 0 <= l < |after|
      ensures MajorAt(DropMajor(majors, blocks, i), after, l)
    {
      var k := if l < i then l else l + 1;
      DroppedHeader(majors, blocks, i, k);
      MajorWithout(blocks, i, k);
    }
    forall a | a in DropMajor(majors, blocks, i)
      ensures IsBlock(after, a)
    {
      assert i > 0 ==> MajorAt(majors, blocks, i - 1);
      assert i + 1 < |blocks| ==> MajorAt(majors, blocks, i + 1);
      assert a in majors && a != blocks[i].at;
      assert IsBlock(blocks, a);
      var k :| 0 <= k < |blocks| && blocks[k].at == a;
      MajorWithout(blocks, i, k);
    }
  }

  lemma DropOther(minors: Minors, bytes: Bytes, blocks: seq<Block>, i: nat, k: nat)
    requires BlocksOk(blocks) && i < |blocks| && k < |blocks| && k != i && BlockMatch(minors, bytes, blocks[k])
    ensures BlockMatch(Released(minors, blocks[i].at, blocks[i].End()), bytes, blocks[k])
  {
    assert Apart(blocks[i], blocks[k]) by {
      if i < k { assert Apart(blocks[i], blocks[k]); } else { assert Apart(blocks[k], blocks[i]); }
    }
    MatchFrame(minors, Released(minors, blocks[i].at, blocks[i].End()), bytes, bytes, blocks[k]);
  }

  lemma DropKeepsBlocksOk(blocks: seq<Block>, i: nat)
    requires BlocksOk(blocks) && i < |blocks|
    ensures BlocksOk(blocks[..i] + blocks[i + 1..])
  {
    var after := blocks[..i] + blocks[i + 1..];
    forall k | 0 <= k < |after|
      ensures after[k] == blocks[if k < i then k else k + 1]
    {
    }
  }

  lemma DropHomed(minors: Minors, blocks: seq<Block>, i: nat)
    requires Homed(minors, blocks) && i < |blocks|
    ensures Homed(Released(minors, blocks[i].at, blocks[i].End()), blocks[..i] + blocks[i + 1..])
  {
    var after := blocks[..i] + blocks[i + 1..];
    forall a | a in Released(minors, blocks[i].at, blocks[i].End())
      ensures InBlock(after, a)
    {
      assert InBlock(blocks, a);
      var k :| 0 <= k < |blocks| && blocks[k].Covers(a);
      assert after[if k < i then k else k - 1] == blocks[k];
    }
  }

  lemma DropSpells(majors: Majors, minors: Minors, bytes: Bytes, blocks: seq<Block>, i: nat)
    requires BlocksOk(blocks) && Spells(majors, minors, bytes, blocks) && i < |blocks|
    ensures Spells(DropMajor(majors, blocks, i), Released(minors, blocks[i].at, blocks[i].End()), bytes,
                   blocks[..i] + blocks[i + 1..])
  {
    var after := blocks[..i] + blocks[i + 1..];
    DropMajors(majors, blocks, i);
    DropHomed(minors, blocks, i);
    forall k | 0 <= k < |after|
      ensures BlockMatch(Released(minors, blocks[i].at, blocks[i].End()), bytes, after[k])
    {
      var l := if k < i then k else k + 1;
      assert after[k] == blocks[l];
      assert BlockMatch(minors, bytes, blocks[l]);
      DropOther(minors, bytes, blocks, i, l);
    }
  }

  // ---------- Payload bytes ----------

  /** The same bytes everywhere but in a range. */
  ghost predicate KeptOutside(bytes: Bytes, bytes': Bytes, lo: int, hi: int)
  {
    forall a {:trigger a in bytes'} {:trigger a in bytes} :: !(lo <= a < hi) ==> (a in bytes <==> a in bytes') && (a in bytes ==> bytes'[a] == bytes[a])
  }

  /** Writing inside one live payload keeps every header and alignment byte. */
  lemma WriteInPayload(majors: Majors, minors: Minors, bytes: Bytes, bytes': Bytes, blocks: seq<Block>, i: nat, j: nat)
    requires BlocksOk(blocks) && Spells(majors, minors, bytes, blocks) && Live(blocks, i, j)
    requires var it := blocks[i].items[j]; KeptOutside(bytes, bytes', it.Payload(), it.Payload() + it.req)
    ensures Spells(majors, minors, bytes', blocks)
  {
    forall k | 0 <= k < |blocks|
      ensures BlockMatch(minors, bytes', blocks[k])
    {
      assert BlockMatch(minors, bytes, blocks[k]);
      forall l | 0 <= l < |blocks[k].items|
        ensures HasMark(bytes', blocks[k].items[l])
      {
        assert HasMark(bytes, blocks[k].items[l]);
        var mark := blocks[k].items[l].Mark();
        var it := blocks[i].items[j];
        if it.Payload() <= mark < it.Payload() + it.req {
          PayloadIsExclusive(blocks, i, j, k, l, mark);
        }
      }
    }
  }

  /** UNALIGN on a live payload finds its header. */
  lemma PointerFindsHeader(bytes: Bytes, it: Item)
    requires HasMark(bytes, it)
    ensures HeaderOf(bytes, it.Payload()) == it.at
  {
    AlignRoundTrip(it.at + HEADER);
  }

  lemma LiveHeader(majors: Majors, minors: Minors, bytes: Bytes, blocks: seq<Block>, i: nat, j: nat)
    requires Spells(majors, minors, bytes, blocks) && Live(blocks, i, j)
    ensures var it := blocks[i].items[j];
      HeaderOf(bytes, it.Payload()) == it.at && it.at in minors && minors[it.at] == MinorOf(blocks[i], j)
  {
    assert BlockMatch(minors, bytes, blocks[i]);
    assert MinorAt(minors, blocks[i], j) && HasMark(bytes, blocks[i].items[j]);
    PointerFindsHeader(bytes, blocks[i].items[j]);
  }

  /** A live magic number is only found in the header of an item. */
  lemma FindItem(minors: Minors, bytes: Bytes, blocks: seq<Block>, majors: Majors, min: int) returns (i: nat, j: nat)
    requires Spells(majors, minors, bytes, blocks) && min in minors && minors[min].magic == MAGIC
    ensures Live(blocks, i, j) && blocks[i].items[j].at == min
  {
    assert InBlock(blocks, min);
    i :| 0 <= i < |blocks| && blocks[i].Covers(min);
    assert BlockMatch(minors, bytes, blocks[i]);
    assert IsItem(blocks[i], min);
    j :| 0 <= j < |blocks[i].items| && blocks[i].items[j].at == min;
  }

  /** What the pointers and counters in the headers say, block by block and item by item. */
  lemma HeadersSpell(majors: Majors, minors: Minors, bytes: Bytes, blocks: seq<Block>, i: nat, j: nat)
    requires Spells(majors, minors, bytes, blocks) && i < |blocks|
    ensures blocks[i].at in majors && var m := majors[blocks[i].at];
      && m.next == (if i + 1 < |blocks| then blocks[i + 1].at else 0) && m.prev == (if i > 0 then blocks[i - 1].at else 0)
      && m.pages == blocks[i].pages && m.size == blocks[i].pages * 4096 && m.usage == 40 + 40 * |blocks[i].items| + Sizes(blocks[i].items)
      && m.first == (if blocks[i].items == [] then 0 else blocks[i].items[0].at)
    ensures j < |blocks[i].items| ==> var items := blocks[i].items; items[j].at in minors && var m := minors[items[j].at];
      && m.next == (if j + 1 < |items| then items[j + 1].at else 0) && m.prev == (if j > 0 then items[j - 1].at else 0)
      && m.block == blocks[i].at && m.magic == 0xC001_C0DE && m.size == items[j].size && m.req == items[j].req
  {
    assert MajorAt(majors, blocks, i) && BlockMatch(minors, bytes, blocks[i]);
    assert j < |blocks[i].items| ==> MinorAt(minors, blocks[i], j);
  }

  // ---------- Field widths ----------

  /** All `unsigned int` fields of a block header hold what they are meant to hold. */
  ghost predicate MajorFits(m: Major)
  {
    m.pages < U32 && m.size < U32 && m.usage <= m.size
  }

  ghost predicate MinorFits(m: Minor)
  {
    m.magic < U32 && m.size < U32 && m.req < U32
  }

  lemma FieldsFit(majors: Majors, minors: Minors, bytes: Bytes, blocks: seq<Block>)
    requires BlocksOk(blocks) && Spells(majors, minors, bytes, blocks) && Bounded(blocks)
    ensures forall a :: a in majors ==> MajorFits(majors[a])
    ensures forall a :: a in minors && minors[a].magic == MAGIC ==> MinorFits(minors[a])
  {
    forall a | a in majors
      ensures MajorFits(majors[a])
    {
      assert IsBlock(blocks, a);
      var i :| 0 <= i < |blocks| && blocks[i].at == a;
      assert MajorAt(majors, blocks, i) && BlockOk(blocks[i]);
      FreeIsNonNegative(blocks[i]);
    }
    forall a | a in minors && minors[a].magic == MAGIC
      ensures MinorFits(minors[a])
    {
      LiveMinorFits(majors, minors, bytes, blocks, a);
    }
  }

  lemma LiveMinorFits(majors: Majors, minors: Minors, bytes: Bytes, blocks: seq<Block>, a: int)
    requires BlocksOk(blocks) && Spells(majors, minors, bytes, blocks) && Bounded(blocks) && a in minors && minors[a].magic == MAGIC
    ensures MinorFits(minors[a])
  {
    var i, j := FindItem(minors, bytes, blocks, majors, a);
    LiveHeader(majors, minors, bytes, blocks, i, j);
    assert BlockOk(blocks[i]) && ItemOk(blocks[i], blocks[i].items[j]);
  }

  /** The layout leaves the block headers no choice. */
  lemma MajorsDetermined(majors: Majors, majors': Majors, blocks: seq<Block>)
    requires MajorsMatch(majors, blocks) && MajorsMatch(majors', blocks)
    ensures majors == majors'
  {
    forall a
      ensures a in majors <==> a in majors'
      ensures a in majors ==> majors[a] == majors'[a]
    {
      if IsBlock(blocks, a) {
        var i :| 0 <= i < |blocks| && blocks[i].at == a;
        assert MajorAt(majors, blocks, i) && MajorAt(majors', blocks, i);
      }
    }
  }

  // ---------- Copying by words ----------

  function Word(b0: byte, b1: byte, b2: byte, b3: byte): nat
  {
    b0 + 0x100 * (b1 + 0x100 * (b2 + 0x100 * b3))
  }

  function Low(w: nat): byte { w % 0x100 }

  function High(w: nat): nat { w / 0x100 }

  function LoadWord(bytes: Bytes, a: int): nat
  {
    Word(Peek(bytes, a), Peek(bytes, a + 1), Peek(bytes, a + 2), Peek(bytes, a + 3))
  }

  function StoreWord(bytes: Bytes, a: int, w: nat): Bytes
  {
    bytes[a := Low(w)][a + 1 := Low(High(w))][a + 2 := Low(High(High(w)))][a + 3 := Low(High(High(High(w))))]
  }

  lemma SplitLow(b: byte, q: nat)
    ensures Low(b + 0x100 * q) == b && High(b + 0x100 * q) == q
  {
  }

  lemma WordRoundTrip(b0: byte, b1: byte, b2: byte, b3: byte)
    ensures var w := Word(b0, b1, b2, b3);
      Low(w) == b0 && Low(High(w)) == b1 && Low(High(High(w))) == b2 && Low(High(High(High(w)))) == b3
  {
    SplitLow(b0, b1 + 0x100 * (b2 + 0x100 * b3));
    SplitLow(b1, b2 + 0x100 * b3);
    SplitLow(b2, b3);
    SplitLow(b3, 0);
  }

  /** `n` bytes have been copied from `src` in `from` to `dst` in `to`, and nothing else changed. */
  ghost predicate Copied(from: Bytes, to: Bytes, dst: int, src: int, n: int)
  {
    && KeptOutside(from, to, dst, dst + n)
    && forall a {:trigger Peek(to, a)} :: dst <= a < dst + n ==> Peek(to, a) == Peek(from, a - dst + src)
  }

  lemma CopyWordStep(from: Bytes, to: Bytes, dst: int, src: int, n: nat, total: nat)
    requires Copied(from, to, dst, src, n) && n + 4 <= total
    requires dst + total <= src || src + total <= dst
    ensures Copied(from, StoreWord(to, dst + n, LoadWord(to, src + n)), dst, src, n + 4)
  {
    var to' := StoreWord(to, dst + n, LoadWord(to, src + n));
    WordRoundTrip(Peek(to, src + n), Peek(to, src + n + 1), Peek(to, src + n + 2), Peek(to, src + n + 3));
    forall a | dst <= a < dst + n + 4
      ensures Peek(to', a) == Peek(from, a - dst + src)
    {
      if a < dst + n {
        assert Peek(to, a) == Peek(from, a - dst + src);
      }
    }
  }

  lemma CopyByteStep(from: Bytes, to: Bytes, dst: int, src: int, n: nat, total: nat)
    requires Copied(from, to, dst, src, n) && n < total
    requires dst + total <= src || src + total <= dst
    ensures Copied(from, to[dst + n := Peek(to, src + n)], dst, src, n + 1)
  {
    var to' := to[dst + n := Peek(to, src + n)];
    forall a | dst <= a < dst + n + 1
      ensures Peek(to', a) == Peek(from, a - dst + src)
    {
      if a < dst + n {
        assert Peek(to, a) == Peek(from, a - dst + src);
      }
    }
  }
}
