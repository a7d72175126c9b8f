/** malloc, free and realloc of the kernel heap, statement by statement over `HeapMemory`. */
module Liballoc {
  import opened Machine
  import opened HeapLayout
  import opened HeapMemory

  /** Position of the block whose header is at `at`. */
  ghost function IndexOf(blocks: seq<Block>, at: nat): (i: nat)
    requires IsBlock(blocks, at)
    ensures i < |blocks| && blocks[i].at == at
  {
    var i :| 0 <= i < |blocks| && blocks[i].at == at;
    i
  }

  /** What a block found by scanning means for `Choose`. */
  lemma ChooseScanned(blocks: seq<Block>, need: nat, start: nat, i: nat, fromBet: bool)
    requires start <= |blocks| && i < |blocks| && HasGap(blocks[i], need)
    requires fromBet ==> start <= i && forall k :: start <= k < i ==> !HasGap(blocks[k], need)
    requires !fromBet ==> (forall k :: 0 <= k < i ==> !HasGap(blocks[k], need))
    requires !fromBet ==> start == 0 || (forall k :: start <= k < |blocks| ==> !HasGap(blocks[k], need))
    ensures Choose(blocks, need, start) == Gap(i, FirstGap(blocks[i], need, 0))
  {
  }

  lemma ChooseExhausted(blocks: seq<Block>, need: nat, start: nat)
    requires start <= |blocks| && forall k :: 0 <= k < |blocks| ==> !HasGap(blocks[k], need)
    ensures Choose(blocks, need, start) == FreshBlock
  {
  }

  // ---------- The best bet ----------

  /** A bet and its room after one more block has been looked at: the roomier of the two, the older one if equal. */
  ghost function Better(bet: (nat, nat), b: Block): (nat, nat)
    requires BlockOk(b)
  {
    FreeIsNonNegative(b);
    if bet.1 < Free(b) then (b.at, Free(b)) else bet
  }

  /** The same after blocks `i` to `n - 1`. */
  ghost function BetOver(blocks: seq<Block>, i: nat, n: nat, bet: (nat, nat)): (nat, nat)
    requires BlocksOk(blocks) && n <= |blocks|
  {
    if n <= i then bet else Better(BetOver(blocks, i, n - 1, bet), blocks[n - 1])
  }

  /** No block looked at has more room than the bet. */
  lemma {:induction false} BetOverIsRoomiest(blocks: seq<Block>, i: nat, n: nat, bet: (nat, nat), k: nat)
    requires BlocksOk(blocks) && n <= |blocks|
    ensures var after := BetOver(blocks, i, n, bet);
      && bet.1 <= after.1 && (i <= k < n ==> Free(blocks[k]) <= after.1)
      && (after == bet || (bet.1 < after.1 && exists j :: i <= j < n && after == (blocks[j].at, Free(blocks[j]))))
  {
    if i < n {
      BetOverIsRoomiest(blocks, i, n - 1, bet, k);
    }
  }

  /** Where a search stands: before block `i` on the first way, or on the way from the root after one that started at `start`. */
  ghost function BetAt(blocks: seq<Block>, start: nat, again: bool, i: nat, bet: (nat, nat)): (nat, nat)
    requires BlocksOk(blocks) && i <= |blocks|
  {
    if again then BetOver(blocks, 0, i, BetOver(blocks, start, |blocks|, bet)) else BetOver(blocks, start, i, bet)
  }

  lemma BetStep(blocks: seq<Block>, start: nat, again: bool, i: nat, bet: (nat, nat))
    requires BlocksOk(blocks) && i < |blocks| && (!again ==> start <= i)
    ensures BetAt(blocks, start, again, i + 1, bet) == Better(BetAt(blocks, start, again, i, bet), blocks[i])
  {
  }

  lemma BetWraps(blocks: seq<Block>, start: nat, bet: (nat, nat))
    requires BlocksOk(blocks)
    ensures BetAt(blocks, start, true, 0, bet) == BetAt(blocks, start, false, |blocks|, bet)
  {
  }

  /** The bet after a search for `need` bytes that began at block `start`. */
  ghost function BetAfterSearch(blocks: seq<Block>, start: nat, fromBet: bool, bet: (nat, nat), need: nat, grant: nat): nat
    requires BlocksOk(blocks) && blocks != [] && start <= |blocks| && GrantOk(blocks, grant, PagesFor(need))
  {
    var s, all := Choose(blocks, need, start), BetAt(blocks, start, fromBet, |blocks|, bet);
    if s.Gap? then BetAt(blocks, start, s.i < start, s.i + 1, bet).0
    else if grant != 0 && Free(blocks[|blocks| - 1]) >= need + HEADER && all.1 < PagesFor(need) * PAGE_SIZE - HEADER then grant
    else all.0
  }

  /** The first block becomes the bet. */
  lemma BetFirst(blocks: seq<Block>, need: nat)
    requires BlocksOk(blocks) && |blocks| == 1 && blocks[0].items == [] && blocks[0].pages == PagesFor(need) && Choose(blocks, need, 0).Gap?
    ensures BetAfterSearch(blocks, 0, false, (0, 0), need, 0) == blocks[0].at
  {
    BetStep(blocks, 0, false, 0, (0, 0));
    assert BlockOk(blocks[0]) && Usage(blocks[0]) == HEADER;
  }

  class Heap {
    var majors: Majors
    var minors: Minors
    var bytes: Bytes
    var memRoot: nat
    var bestBet: nat
    var reserved: nat
    var inuse: nat
    var warningCount: nat
    var errorCount: nat
    var possibleOverruns: nat

    // The layout that memory spells out.
    ghost var blocks: seq<Block>

    ghost predicate Counters()
      reads this
    {
      && memRoot == (if blocks == [] then 0 else blocks[0].at)
      && (bestBet != 0 ==> IsBlock(blocks, bestBet))
      && reserved == Allocated(blocks)
      && inuse == InUse(blocks)
    }

    ghost predicate Rep()
      reads this
    {
      BlocksOk(blocks) && Spells(majors, minors, bytes, blocks) && Counters()
    }

    /** The state between calls. */
    ghost predicate Valid()
      reads this
    {
      Rep() && WellFormed(blocks) && Bounded(blocks)
    }

    /** Where the search for `need` bytes begins. */
    ghost function Start(need: nat): (i: nat)
      requires Rep()
      reads this
      ensures i <= |blocks|
    {
      if bestBet != 0 && Free(blocks[IndexOf(blocks, bestBet)]) > need + HEADER then IndexOf(blocks, bestBet) else 0
    }

    constructor ()
      ensures Valid() && blocks == [] && bestBet == 0
    {
      majors, minors, bytes := map[], map[], map[];
      memRoot, bestBet, reserved, inuse := 0, 0, 0, 0;
      warningCount, errorCount, possibleOverruns := 0, 0, 0;
      blocks := [];
    }

    /** A detached major on pages from the provider; `grant` is the provider's answer, 0 for NULL. */
    method AllocateNewPage(size: nat, grant: nat) returns (maj: nat)
      modifies `majors, `bytes, `reserved, `warningCount
      ensures maj == grant
      ensures grant == 0 ==> majors == old(majors) && bytes == old(bytes) && reserved == old(reserved) && warningCount == old(warningCount) + 1
      ensures grant != 0 ==> majors == old(majors)[maj := Major(0, 0, PagesFor(size), PagesFor(size) * PAGE_SIZE, HEADER, 0)]
      ensures grant != 0 ==> bytes == Zeroed(old(bytes), grant, grant + PagesFor(size) * PAGE_SIZE)
      ensures grant != 0 ==> reserved == old(reserved) + PagesFor(size) * PAGE_SIZE && warningCount == old(warningCount)
    {
      var st := size + HEADER;
      st := st + HEADER;
      if st % PAGE_SIZE == 0 {
        st := st / PAGE_SIZE;
      } else {
        st := st / PAGE_SIZE + 1;
      }
      if st < MIN_PAGES {
        st := MIN_PAGES;
      }
      maj := grant;
      if maj == 0 {
        warningCount := warningCount + 1;
        return;
      }
      bytes := Zeroed(bytes, maj, maj + st * PAGE_SIZE);
      majors := majors[maj := Major(0, 0, st, st * PAGE_SIZE, HEADER, 0)];
      reserved := reserved + st * PAGE_SIZE;
    }

    /** The first major becomes the root. */
    method GrowRoot(size: nat, grant: nat)
      requires Rep() && blocks == []
      modifies `majors, `bytes, `reserved, `warningCount, `memRoot, `blocks
      ensures Rep()
      ensures memRoot == grant
      ensures grant == 0 ==> blocks == [] && bytes == old(bytes) && warningCount == old(warningCount) + 1
      ensures grant != 0 ==> blocks == [Block(grant, PagesFor(size), [])] && warningCount == old(warningCount)
      ensures grant != 0 ==> bytes == Zeroed(old(bytes), grant, grant + PagesFor(size) * PAGE_SIZE)
    {
      memRoot := AllocateNewPage(size, grant);
      if memRoot != 0 {
        ghost var b := Block(memRoot, PagesFor(size), []);
        GrowSpells(old(majors), minors, old(bytes), blocks, b);
        CountersAppend(blocks, b, bestBet);
        assert blocks + [b] == [b];
        blocks := [b];
      }
    }

    /** A new major behind the last one. */
    method GrowBehind(last: nat, size: nat, grant: nat) returns (maj: nat)
      requires Rep() && blocks != [] && last == blocks[|blocks| - 1].at && GrantOk(blocks, grant, PagesFor(size))
      modifies `majors, `bytes, `reserved, `warningCount, `blocks
      ensures Rep()
      ensures maj == grant
      ensures grant == 0 ==> blocks == old(blocks) && bytes == old(bytes) && warningCount == old(warningCount) + 1
      ensures grant != 0 ==> blocks == old(blocks) + [Block(grant, PagesFor(size), [])] && warningCount == old(warningCount)
      ensures grant != 0 ==> bytes == Zeroed(old(bytes), grant, grant + PagesFor(size) * PAGE_SIZE)
    {
      maj := AllocateNewPage(size, grant);
      if maj != 0 {
        ghost var b := Block(maj, PagesFor(size), []);
        GrowSpells(old(majors), minors, old(bytes), blocks, b);
        CountersAppend(blocks, b, bestBet);
        majors := majors[last := majors[last].(next := maj)];
        majors := majors[maj := majors[maj].(prev := last)];
        blocks := blocks + [b];
      }
    }

    /** ALIGN on the raw pointer behind the header just written at `min`. */
    method AlignBehind(min: nat, ghost size: nat, ghost req: nat) returns (p: int)
      modifies `bytes
      ensures p == Item(min, size, req).Payload()
      ensures bytes == Mark(old(bytes), Item(min, size, req))
    {
      p := min + HEADER;
      p := p + ALIGN_INFO;
      var diff := p % ALIGNMENT;
      if diff != 0 {
        diff := ALIGNMENT - diff;
        p := p + diff;
      }
      bytes := UnderHeader(bytes, min)[p - ALIGN_INFO := diff + ALIGN_INFO];
    }

    /**
      The end of every placement case: the item's header is linked in, what is left is
      the accounting and ALIGN.
     */
    method Commit(maj: nat, min: nat, size: nat, req: nat,
                  ghost i: nat, ghost j: nat, ghost majors0: Majors, ghost minors0: Minors)
      returns (p: int)
      requires BlocksOk(blocks) && Spells(majors0, minors0, bytes, blocks) && Counters() && size == req + ALIGNMENT + ALIGN_INFO
      requires i < |blocks| && InGap(blocks[i], j, Item(min, size, req)) && maj == blocks[i].at && maj in majors0
      requires MinorsMatch(minors0, blocks[i]) && minors == LinkMinors(minors0, blocks[i], j, Item(min, size, req))
      requires majors == majors0[maj := majors0[maj].(first := if j == 0 then min else majors0[maj].first)]
      modifies `majors, `bytes, `inuse, `blocks
      ensures Rep()
      ensures blocks == old(blocks)[i := WithItem(old(blocks)[i], j, Item(min, size, req))]
      ensures p == Item(min, size, req).Payload()
      ensures bytes == Mark(old(bytes), Item(min, size, req))
    {
      ghost var it := Item(min, size, req);
      majors := majors[maj := majors[maj].(usage := majors[maj].usage + size + HEADER)];
      inuse := inuse + size;
      p := AlignBehind(min, size, req);
      assert majors == LinkMajors(majors0, blocks, i, j, it);
      PlaceSpells(majors0, minors0, old(bytes), blocks, i, j, it);
      CountersPlace(blocks, i, j, it, bestBet);
      blocks := blocks[i := WithItem(blocks[i], j, it)];
    }

    /** Case 2: the block is empty. */
    method PlaceInEmpty(maj: nat, size: nat, req: nat, ghost i: nat) returns (p: int)
      requires Rep() && size == req + ALIGNMENT + ALIGN_INFO
      requires i < |blocks| && maj == blocks[i].at && blocks[i].items == [] && Fits(blocks[i], 0, size)
      modifies `majors, `minors, `bytes, `inuse, `blocks
      ensures Rep() && Placed(old(blocks), old(bytes), i, 0, req, p)
    {
      ghost var majors0, minors0 := majors, minors;
      assert MajorAt(majors, blocks, i) && BlockMatch(minors, bytes, blocks[i]) && BlockOk(blocks[i]);
      ChosenInGap(blocks[i], 0, req);
      var min := maj + HEADER;
      majors := majors[maj := majors[maj].(first := min)];
      minors := Clobber(minors, min, min + HEADER + size)[min := Minor(0, 0, maj, MAGIC, size, req)];
      assert Item(min, size, req) == ItemIn(blocks[i], 0, req);
      p := Commit(maj, min, size, req, i, 0, majors0, minors0);
    }

    /** Case 3: the gap in front of the first item. */
    method PlaceInFront(maj: nat, size: nat, req: nat, ghost i: nat) returns (p: int)
      requires Rep() && size == req + ALIGNMENT + ALIGN_INFO
      requires i < |blocks| && maj == blocks[i].at && blocks[i].items != [] && Fits(blocks[i], 0, size)
      modifies `majors, `minors, `bytes, `inuse, `blocks
      ensures Rep() && Placed(old(blocks), old(bytes), i, 0, req, p)
    {
      ghost var majors0, minors0 := majors, minors;
      assert MajorAt(majors, blocks, i) && BlockMatch(minors, bytes, blocks[i]) && BlockOk(blocks[i]);
      ChosenInGap(blocks[i], 0, req);
      LinkInFront(minors, blocks[i], ItemIn(blocks[i], 0, req));
      var first := majors[maj].first;
      var min := maj + HEADER;
      minors := Clobber(minors, min, min + HEADER + size)[min := Minor(0, first, maj, MAGIC, size, req)];
      minors := minors[first := minors[first].(prev := min)];
      majors := majors[maj := majors[maj].(first := min)];
      assert Item(min, size, req) == ItemIn(blocks[i], 0, req);
      p := Commit(maj, min, size, req, i, 0, majors0, minors0);
    }

    /** Case 4.1: behind the last item. */
    method PlaceAtEnd(maj: nat, last: nat, size: nat, req: nat, ghost i: nat) returns (p: int)
      requires Rep() && size == req + ALIGNMENT + ALIGN_INFO
      requires i < |blocks| && maj == blocks[i].at && blocks[i].items != [] && last == blocks[i].items[|blocks[i].items| - 1].at
      requires Fits(blocks[i], |blocks[i].items|, size)
      modifies `majors, `minors, `bytes, `inuse, `blocks
      ensures Rep() && Placed(old(blocks), old(bytes), i, |old(blocks)[i].items|, req, p)
    {
      ghost var majors0, minors0 := majors, minors;
      ghost var j := |blocks[i].items|;
      assert MajorAt(majors, blocks, i) && BlockMatch(minors, bytes, blocks[i]) && BlockOk(blocks[i]);
      ChosenInGap(blocks[i], j, req);
      LinkAtEnd(minors, blocks[i], ItemIn(blocks[i], j, req));
      var min := last + HEADER + minors[last].size;
      minors := Clobber(minors, min, min + HEADER + size)[min := Minor(last, 0, maj, MAGIC, size, req)];
      minors := minors[last := minors[last].(next := min)];
      assert majors == majors0[maj := majors0[maj].(first := majors0[maj].first)];
      assert Item(min, size, req) == ItemIn(blocks[i], j, req);
      p := Commit(maj, min, size, req, i, j, majors0, minors0);
    }

    /** Case 4.2: between item `j - 1` at `prev` and item `j`. */
    method PlaceBetween(maj: nat, prev: nat, size: nat, req: nat, ghost i: nat, ghost j: nat) returns (p: int)
      requires Rep() && size == req + ALIGNMENT + ALIGN_INFO
      requires i < |blocks| && maj == blocks[i].at && 0 < j < |blocks[i].items| && prev == blocks[i].items[j - 1].at
      requires Fits(blocks[i], j, size)
      modifies `majors, `minors, `bytes, `inuse, `blocks
      ensures Rep() && Placed(old(blocks), old(bytes), i, j, req, p)
    {
      ghost var majors0, minors0 := majors, minors;
      assert MajorAt(majors, blocks, i) && BlockMatch(minors, bytes, blocks[i]) && BlockOk(blocks[i]);
      ChosenInGap(blocks[i], j, req);
      LinkBetween(minors, blocks[i], j, ItemIn(blocks[i], j, req));
      var min := prev + HEADER + minors[prev].size;
      var next := minors[prev].next;
      minors := Clobber(minors, min, min + HEADER + size)[min := Minor(prev, next, maj, MAGIC, size, req)];
      minors := minors[next := minors[next].(prev := min)];
      minors := minors[prev := minors[prev].(next := min)];
      assert majors == majors0[maj := majors0[maj].(first := majors0[maj].first)];
      assert Item(min, size, req) == ItemIn(blocks[i], j, req);
      p := Commit(maj, min, size, req, i, j, majors0, minors0);
    }

    /** The new item sits in gap `j` of block `i`, marked for UNALIGN, and `p` is its payload. */
    ghost predicate Placed(blocks0: seq<Block>, bytes0: Bytes, i: nat, j: nat, req: nat, p: int)
      requires i < |blocks0| && j <= |blocks0[i].items|
      reads `blocks, `bytes
    {
      var it := ItemIn(blocks0[i], j, req);
      && blocks == blocks0[i := WithItem(blocks0[i], j, it)]
      && p == it.Payload()
      && bytes == Mark(bytes0, it)
    }

    /** Case 4: walk the items of block `i` and use the first gap behind one of them that fits. */
    method WalkMinors(maj: nat, size: nat, req: nat, ghost i: nat) returns (p: int)
      requires Rep() && size == req + ALIGNMENT + ALIGN_INFO
      requires i < |blocks| && maj == blocks[i].at && blocks[i].items != [] && !Fits(blocks[i], 0, size)
      modifies `majors, `minors, `bytes, `inuse, `blocks
      ensures Rep()
      ensures HasGap(old(blocks)[i], size) ==> p != 0 && Placed(old(blocks), old(bytes), i, FirstGap(old(blocks)[i], size, 0), req, p)
      ensures !HasGap(old(blocks)[i], size) ==> p == 0 && blocks == old(blocks) && bytes == old(bytes) && majors == old(majors)
    {
      ghost var b := blocks[i];
      assert MajorAt(majors, blocks, i) && BlockMatch(minors, bytes, b) && BlockOk(b);
      FirstIsNull(b);
      var min := majors[maj].first;
      ghost var j := 0;
      while min != 0
        invariant Rep() && blocks == old(blocks) && bytes == old(bytes) && majors == old(majors) && minors == old(minors)
        invariant min != 0 ==> j < |b.items| && min == b.items[j].at
        invariant min == 0 ==> j == |b.items|
        invariant forall k :: 0 <= k <= j ==> !Fits(b, k, size)
        decreases |b.items| - j
      {
        assert MinorAt(minors, b, j) && ItemOk(b, b.items[j]);
        if minors[min].next == 0 {
          NextIsNull(b, j);
          var diff := maj + majors[maj].size - min - HEADER - minors[min].size;
          if diff >= size + HEADER {
            FirstGapIs(b, size, j + 1);
            p := PlaceAtEnd(maj, min, size, req, i);
            return;
          }
        }
        if minors[min].next != 0 {
          NextIsNull(b, j);
          var diff := minors[min].next - min - HEADER - minors[min].size;
          if diff >= size + HEADER {
            FirstGapIs(b, size, j + 1);
            p := PlaceBetween(maj, min, size, req, i, j + 1);
            return;
          }
        }
        min := minors[min].next;
        j := j + 1;
      }
      p := 0;
    }

    /** Cases 2 to 4 on one block: the first gap that fits, if there is one. */
    method FillBlock(maj: nat, size: nat, req: nat, ghost i: nat) returns (p: int)
      requires Rep() && size == req + ALIGNMENT + ALIGN_INFO
      requires i < |blocks| && maj == blocks[i].at && size + HEADER <= Free(blocks[i])
      modifies `majors, `minors, `bytes, `inuse, `blocks
      ensures Rep()
      ensures HasGap(old(blocks)[i], size) ==> p != 0 && Placed(old(blocks), old(bytes), i, FirstGap(old(blocks)[i], size, 0), req, p)
      ensures !HasGap(old(blocks)[i], size) ==> p == 0 && blocks == old(blocks) && bytes == old(bytes) && majors == old(majors)
    {
      ghost var b := blocks[i];
      assert MajorAt(majors, blocks, i) && BlockMatch(minors, bytes, b) && BlockOk(b);
      if majors[maj].first == 0 {
        FirstIsNull(b);
        FirstGapIs(b, size, 0);
        p := PlaceInEmpty(maj, size, req, i);
        return;
      }
      FirstIsNull(b);
      var diff := majors[maj].first - maj - HEADER;
      if diff >= size + HEADER {
        FirstGapIs(b, size, 0);
        p := PlaceInFront(maj, size, req, i);
        return;
      }
      p := WalkMinors(maj, size, req, i);
    }

    /** Where the search begins: at the best bet when it has room to spare, else at the root. */
    method PickStart(size: nat) returns (maj: nat, startedBet: bool, bestSize: nat, ghost i: nat)
      requires Rep() && blocks != []
      ensures i < |blocks| && i == Start(size) && maj == blocks[i].at && maj != 0
      ensures startedBet <==> bestBet != 0 && Free(blocks[IndexOf(blocks, bestBet)]) > size + HEADER
      ensures bestSize == if bestBet != 0 then Free(blocks[IndexOf(blocks, bestBet)]) else 0
      ensures Scanned(blocks, size, Start(size), i, startedBet)
    {
      RootIsNull(blocks);
      maj, startedBet, bestSize, i := memRoot, false, 0, 0;
      if bestBet != 0 {
        ghost var k := IndexOf(blocks, bestBet);
        FieldsOf(majors, minors, bytes, blocks, k);
        bestSize := majors[bestBet].size - majors[bestBet].usage;
        if bestSize > size + HEADER {
          maj, startedBet, i := bestBet, true, k;
        }
      }
    }

    /**
      Cases 1 and 5: nothing fits in the major at hand.  Go on to the next one, restart
      once from the root, or ask for a new major.
     */
    method NextMajor(maj: nat, startedBet: bool, size: nat, grant: nat, ghost i: nat, ghost start: nat)
      returns (maj': nat, startedBet': bool, grew: bool, ghost i': nat)
      requires Rep() && i < |blocks| && maj == blocks[i].at && GrantOk(blocks, grant, PagesFor(size))
      requires Scanned(blocks, size, start, i, startedBet) && !HasGap(blocks[i], size)
      modifies `majors, `bytes, `reserved, `warningCount, `blocks
      ensures Rep()
      ensures grew || maj' == 0 ==> Choose(old(blocks), size, start) == FreshBlock && !startedBet'
      ensures grew <==> maj' != 0 && blocks != old(blocks)
      ensures grew ==> maj' == grant && i' == |old(blocks)| && blocks == old(blocks) + [Block(grant, PagesFor(size), [])]
      ensures grew ==> bytes == Zeroed(old(bytes), grant, grant + PagesFor(size) * PAGE_SIZE)
      ensures !grew ==> blocks == old(blocks) && bytes == old(bytes)
      ensures maj' == 0 ==> grant == 0
      ensures warningCount == old(warningCount) + if maj' == 0 then 1 else 0
      ensures !grew && maj' != 0 ==> i' < |blocks| && maj' == blocks[i'].at && Scanned(blocks, size, start, i', startedBet')
      ensures !grew && maj' != 0 ==> (startedBet && !startedBet' && i' == 0 && i + 1 == |blocks|) || (startedBet == startedBet' && i' == i + 1)
      ensures grew || maj' == 0 ==> i + 1 == |old(blocks)| && startedBet == startedBet'
    {
      FieldsOf(majors, minors, bytes, blocks, i);
      maj', startedBet', grew, i' := majors[maj].next, startedBet, false, i + 1;
      if maj' == 0 {
        if startedBet {
          RootIsNull(blocks);
          maj', startedBet', i' := memRoot, false, 0;
        } else {
          ChooseExhausted(blocks, size, start);
          maj' := GrowBehind(maj, size, grant);
          grew := maj' != 0;
        }
      }
    }

    /** Cases 2 to 4 on the major at hand, seen from the whole search. */
    method FillScanned(maj: nat, startedBet: bool, grew: bool, size: nat, req: nat, ghost grant: nat,
                       ghost i: nat, ghost start: nat, ghost blocks0: seq<Block>, ghost bytes0: Bytes)
      returns (p: int)
      requires Rep() && size == req + ALIGNMENT + ALIGN_INFO && start <= |blocks0|
      requires i < |blocks| && maj == blocks[i].at && size + HEADER <= Free(blocks[i])
      requires grew ==> Grown(blocks0, bytes0, size, start, grant) && i == |blocks0|
      requires !grew ==> blocks == blocks0 && bytes == bytes0 && Scanned(blocks, size, start, i, startedBet)
      modifies `majors, `minors, `bytes, `inuse, `blocks
      ensures Rep()
      ensures p != 0 ==> Satisfied(blocks0, bytes0, req, Choose(blocks0, size, start), grant, p)
      ensures p == 0 ==> !grew && blocks == blocks0 && bytes == bytes0 && !HasGap(blocks[i], size)
      ensures p != 0 && grew ==> Choose(blocks0, size, start) == FreshBlock
      ensures p != 0 && !grew ==> HasGap(blocks0[i], size) && Choose(blocks0, size, start) == Gap(i, FirstGap(blocks0[i], size, 0))
    {
      if grew {
        FreshBlockFits(blocks[i].at, size);
        PlacedInFresh(blocks0, grant, req);
      } else if HasGap(blocks[i], size) {
        ChooseScanned(blocks, size, start, i, startedBet);
      }
      p := FillBlock(maj, size, req, i);
    }

    /** The room left in a major, which becomes the best bet when it has more than any before. */
    method NoteBet(maj: nat, best: nat, ghost i: nat) returns (bestSize: nat, diff: nat)
      requires Rep() && i < |blocks| && maj == blocks[i].at
      modifies `bestBet
      ensures Rep() && diff == Free(blocks[i]) && bestSize == if best < diff then diff else best
      ensures bestBet == if best < diff then maj else old(bestBet)
      ensures BlockOk(blocks[i]) && (bestBet, bestSize) == Better((old(bestBet), best), blocks[i])
    {
      FieldsOf(majors, minors, bytes, blocks, i);
      bestSize, diff := best, majors[maj].size - majors[maj].usage;
      if bestSize < diff {
        bestBet := maj;
        bestSize := diff;
      }
    }

    /** The bet and its room as the search begins. */
    ghost function FirstBet(): (nat, nat)
      requires Rep()
      reads this
    {
      if bestBet == 0 then (0, 0) else
        var k := IndexOf(blocks, bestBet);
        assert BlockOk(blocks[k]);
        FreeIsNonNegative(blocks[k]);
        (bestBet, Free(blocks[k]))
    }

    /** The search stands at the major at hand, or has just added it, or has ended without one. */
    ghost predicate Standing(maj: nat, startedBet: bool, grew: bool, size: nat, grant: nat, i: nat,
                             start: nat, fromBet: bool, blocks0: seq<Block>, bytes0: Bytes)
      reads this
    {
      && Rep() && SearchOf(size, grant, start, fromBet, blocks0) && (startedBet ==> fromBet)
      && (maj != 0 ==> i < |blocks| && maj == blocks[i].at)
      && (maj == 0 ==> !grew && !startedBet && grant == 0 && Choose(blocks0, size, start) == FreshBlock)
      && (!grew && maj != 0 ==> Passed(size, start, fromBet && !startedBet, blocks0))
      && (if grew then maj != 0 && Grown(blocks0, bytes0, size, start, grant) && i == |blocks0| && !startedBet
          else blocks == blocks0 && bytes == bytes0 && (maj != 0 ==> Scanned(blocks, size, start, i, startedBet)))
    }

    /** In front of the major at hand; one was added only behind a major with room. */
    ghost predicate Searching(maj: nat, startedBet: bool, grew: bool, bestSize: nat, size: nat, grant: nat, i: nat,
                              start: nat, fromBet: bool, bet0: (nat, nat), blocks0: seq<Block>, bytes0: Bytes)
      reads this
    {
      && Standing(maj, startedBet, grew, size, grant, i, start, fromBet, blocks0, bytes0)
      && (grew ==> Free(blocks0[|blocks0| - 1]) >= size + HEADER)
      && (bestBet, bestSize) == BetAt(blocks0, start, fromBet && !startedBet, if grew || maj == 0 then |blocks0| else i, bet0)
    }

    ghost predicate FromBet(size: nat)
      requires Rep()
      reads this
    {
      bestBet != 0 && Free(blocks[IndexOf(blocks, bestBet)]) > size + HEADER
    }

    /** What stays the same during a search. */
    ghost predicate SearchOf(size: nat, grant: nat, start: nat, fromBet: bool, blocks0: seq<Block>)
    {
      BlocksOk(blocks0) && blocks0 != [] && start <= |blocks0| && GrantOk(blocks0, grant, PagesFor(size)) && (!fromBet ==> start == 0)
    }

    /** On the second way, nothing was found on the first. */
    ghost predicate Passed(size: nat, start: nat, again: bool, blocks0: seq<Block>)
    {
      again ==> forall k :: 0 <= k < |blocks0| && start <= k ==> !HasGap(blocks0[k], size)
    }

    /** On to the next major, which is the first again after the last on the first way. */
    method Advance(maj: nat, startedBet: bool, size: nat, grant: nat, ghost i: nat,
                   ghost start: nat, ghost fromBet: bool, ghost bet0: (nat, nat), ghost blocks0: seq<Block>, ghost bytes0: Bytes)
      returns (maj': nat, startedBet': bool, grew: bool, ghost i': nat)
      requires maj != 0 && Standing(maj, startedBet, false, size, grant, i, start, fromBet, blocks0, bytes0) && !HasGap(blocks[i], size)
      modifies `majors, `bytes, `reserved, `warningCount, `blocks
      ensures Standing(maj', startedBet', grew, size, grant, i', start, fromBet, blocks0, bytes0)
      ensures warningCount == old(warningCount) + if maj' == 0 then 1 else 0
      ensures grew || maj' == 0 ==> i + 1 == |blocks0|
      ensures BetAt(blocks0, start, fromBet && !startedBet, i + 1, bet0)
           == BetAt(blocks0, start, fromBet && !startedBet', if grew || maj' == 0 then |blocks0| else i', bet0)
      ensures !grew && maj' != 0 ==> (startedBet && !startedBet') || (startedBet == startedBet' && i' == i + 1)
      ensures grew ==> startedBet == startedBet'
    {
      BetWraps(blocks0, start, bet0);
      maj', startedBet', grew, i' := NextMajor(maj, startedBet, size, grant, i, start);
    }

    lemma BetWhenFound(size: nat, grant: nat, i: nat, startedBet: bool, start: nat, fromBet: bool, bet0: (nat, nat), blocks0: seq<Block>)
      requires SearchOf(size, grant, start, fromBet, blocks0) && i < |blocks0| && HasGap(blocks0[i], size) && (startedBet ==> fromBet)
      requires Scanned(blocks0, size, start, i, startedBet) && Passed(size, start, fromBet && !startedBet, blocks0)
      requires Choose(blocks0, size, start) == Gap(i, FirstGap(blocks0[i], size, 0))
      ensures BetAfterSearch(blocks0, start, fromBet, bet0, size, grant) == BetAt(blocks0, start, fromBet && !startedBet, i + 1, bet0).0
    {
    }

    /** Cases 2 to 5 on a major that has room. */
    method SearchRoomy(maj: nat, startedBet: bool, bestSize: nat, size: nat, req: nat, grant: nat, ghost i: nat,
                       ghost start: nat, ghost fromBet: bool, ghost bet0: (nat, nat), ghost blocks0: seq<Block>, ghost bytes0: Bytes)
      returns (p: int, maj': nat, startedBet': bool, grew: bool, ghost i': nat)
      requires maj != 0 && size == req + ALIGNMENT + ALIGN_INFO && Standing(maj, startedBet, false, size, grant, i, start, fromBet, blocks0, bytes0)
      requires size + HEADER <= Free(blocks[i]) && (bestBet, bestSize) == BetAt(blocks0, start, fromBet && !startedBet, i + 1, bet0)
      modifies `majors, `minors, `bytes, `reserved, `inuse, `warningCount, `blocks
      ensures p != 0 ==> Rep() && Satisfied(blocks0, bytes0, req, Choose(blocks0, size, start), grant, p)
      ensures p != 0 ==> bestBet == BetAfterSearch(blocks0, start, fromBet, bet0, size, grant) && warningCount == old(warningCount)
      ensures p == 0 ==> Searching(maj', startedBet', grew, bestSize, size, grant, i', start, fromBet, bet0, blocks0, bytes0)
      ensures p == 0 ==> warningCount == old(warningCount) + if maj' == 0 then 1 else 0
      ensures p == 0 && maj' != 0 ==> (startedBet && !startedBet') || (startedBet == startedBet' && (grew || i' == i + 1))
    {
      maj', startedBet', grew, i' := maj, startedBet, false, i;
      if HasGap(blocks[i], size) {
        ChooseScanned(blocks, size, start, i, startedBet);
        BetWhenFound(size, grant, i, startedBet, start, fromBet, bet0, blocks0);
      }
      p := FillScanned(maj, startedBet, false, size, req, grant, i, start, blocks0, bytes0);
      if p == 0 {
        maj', startedBet', grew, i' := Advance(maj, startedBet, size, grant, i, start, fromBet, bet0, blocks0, bytes0);
      }
    }

    /** Cases 2 to 4 on a major just added, which is looked at for the bet only if the one before it had room. */
    method SearchAdded(maj: nat, size: nat, req: nat, grant: nat, ghost i: nat, ghost all: (nat, nat),
                       ghost start: nat, ghost fromBet: bool, ghost bet0: (nat, nat), ghost blocks0: seq<Block>, ghost bytes0: Bytes) returns (p: int)
      requires size == req + ALIGNMENT + ALIGN_INFO && Standing(maj, false, true, size, grant, i, start, fromBet, blocks0, bytes0)
      requires all == BetAt(blocks0, start, fromBet, |blocks0|, bet0) && BlockOk(blocks[i])
      requires bestBet == if Free(blocks0[|blocks0| - 1]) >= size + HEADER then Better(all, blocks[i]).0 else all.0
      modifies `majors, `minors, `bytes, `inuse, `blocks
      ensures p != 0 && Rep() && Satisfied(blocks0, bytes0, req, Choose(blocks0, size, start), grant, p)
      ensures bestBet == BetAfterSearch(blocks0, start, fromBet, bet0, size, grant)
    {
      FreshBlockFits(maj, size);
      p := FillScanned(maj, false, true, size, req, grant, i, start, blocks0, bytes0);
    }

    /** Case 1 on a major without room. */
    method SearchFull(maj: nat, startedBet: bool, bestSize: nat, size: nat, req: nat, grant: nat, ghost i: nat,
                      ghost start: nat, ghost fromBet: bool, ghost bet0: (nat, nat), ghost blocks0: seq<Block>, ghost bytes0: Bytes)
      returns (p: int, maj': nat, startedBet': bool, ghost i': nat)
      requires maj != 0 && size == req + ALIGNMENT + ALIGN_INFO && Standing(maj, startedBet, false, size, grant, i, start, fromBet, blocks0, bytes0)
      requires Free(blocks[i]) < size + HEADER && (bestBet, bestSize) == BetAt(blocks0, start, fromBet && !startedBet, i + 1, bet0)
      modifies `majors, `minors, `bytes, `reserved, `inuse, `warningCount, `blocks
      ensures p != 0 ==> Rep() && Satisfied(blocks0, bytes0, req, Choose(blocks0, size, start), grant, p)
      ensures p != 0 ==> bestBet == BetAfterSearch(blocks0, start, fromBet, bet0, size, grant) && warningCount == old(warningCount)
      ensures p == 0 ==> Searching(maj', startedBet', false, bestSize, size, grant, i', start, fromBet, bet0, blocks0, bytes0)
      ensures p == 0 ==> warningCount == old(warningCount) + if maj' == 0 then 1 else 0
      ensures p == 0 && maj' != 0 ==> (startedBet && !startedBet') || (startedBet == startedBet' && i' == i + 1)
    {
      SkippedBlockHasNoGap(blocks[i], size);
      var grew;
      maj', startedBet', grew, i' := Advance(maj, startedBet, size, grant, i, start, fromBet, bet0, blocks0, bytes0);
      p := 0;
      if grew {
        FreshBlockFits(maj', size);
        p := SearchAdded(maj', size, req, grant, i', (bestBet, bestSize), start, fromBet, bet0, blocks0, bytes0);
      }
    }

    /** One turn of the search loop. */
    method SearchOne(maj: nat, startedBet: bool, grew: bool, bestSize: nat, size: nat, req: nat, grant: nat, ghost i: nat,
                     ghost start: nat, ghost fromBet: bool, ghost bet0: (nat, nat), ghost blocks0: seq<Block>, ghost bytes0: Bytes)
      returns (p: int, maj': nat, startedBet': bool, grew': bool, bestSize': nat, ghost i': nat)
      requires maj != 0 && size == req + ALIGNMENT + ALIGN_INFO
      requires Searching(maj, startedBet, grew, bestSize, size, grant, i, start, fromBet, bet0, blocks0, bytes0)
      modifies `majors, `minors, `bytes, `bestBet, `reserved, `inuse, `warningCount, `blocks
      ensures p != 0 ==> Rep() && Satisfied(blocks0, bytes0, req, Choose(blocks0, size, start), grant, p)
      ensures p != 0 ==> bestBet == BetAfterSearch(blocks0, start, fromBet, bet0, size, grant) && warningCount == old(warningCount)
      ensures p == 0 ==> Searching(maj', startedBet', grew', bestSize', size, grant, i', start, fromBet, bet0, blocks0, bytes0)
      ensures p == 0 ==> warningCount == old(warningCount) + if maj' == 0 then 1 else 0
      ensures p == 0 && maj' != 0 ==> !grew && ((startedBet && !startedBet') || (startedBet == startedBet' && (grew' || i' == i + 1)))
    {
      ghost var all := BetAt(blocks0, start, fromBet, |blocks0|, bet0);
      if !grew {
        BetStep(blocks0, start, fromBet && !startedBet, i, bet0);
      }
      FreshBlockFits(maj, size);
      var diff;
      bestSize', diff := NoteBet(maj, bestSize, i);
      maj', startedBet', grew', i' := maj, startedBet, grew, i;
      if diff < size + HEADER {
        p, maj', startedBet', i' := SearchFull(maj, startedBet, bestSize', size, req, grant, i, start, fromBet, bet0, blocks0, bytes0);
      } else if grew {
        p := SearchAdded(maj, size, req, grant, i, all, start, fromBet, bet0, blocks0, bytes0);
      } else {
        p, maj', startedBet', grew', i' := SearchRoomy(maj, startedBet, bestSize', size, req, grant, i, start, fromBet, bet0, blocks0, bytes0);
      }
    }

    /** The search of malloc over the majors. */
    method SearchMajors(size: nat, req: nat, grant: nat) returns (p: int)
      requires Rep() && blocks != [] && size == req + ALIGNMENT + ALIGN_INFO && GrantOk(blocks, grant, PagesFor(size))
      modifies `majors, `minors, `bytes, `bestBet, `reserved, `inuse, `warningCount, `blocks
      ensures Rep()
      ensures Satisfied(old(blocks), old(bytes), req, Choose(old(blocks), size, old(Start(size))), grant, p)
      ensures warningCount == old(warningCount) + if p == 0 then 1 else 0
      ensures bestBet == BetAfterSearch(old(blocks), old(Start(size)), old(FromBet(size)), old(FirstBet()), size, grant)
    {
      ghost var start, fromBet, bet0 := Start(size), FromBet(size), FirstBet();
      ghost var blocks0, bytes0 := blocks, bytes;
      var grew := false;
      var maj: nat, startedBet: bool, bestSize: nat;
      ghost var i: nat;
      maj, startedBet, bestSize, i := PickStart(size);
      p := 0;
      while maj != 0
        invariant p == 0 && Searching(maj, startedBet, grew, bestSize, size, grant, i, start, fromBet, bet0, blocks0, bytes0)
        invariant warningCount == old(warningCount) + if maj == 0 then 1 else 0
        decreases maj != 0, startedBet, !grew, |blocks| - i
      {
        p, maj, startedBet, grew, bestSize, i := SearchOne(maj, startedBet, grew, bestSize, size, req, grant, i, start, fromBet, bet0, blocks0, bytes0);
        if p != 0 {
          return;
        }
      }
    }

    /** One empty block was added because nothing fits in the others. */
    ghost predicate Grown(blocks0: seq<Block>, bytes0: Bytes, size: nat, start: nat, grant: nat)
      requires start <= |blocks0|
      reads `blocks, `bytes
    {
      && grant != 0
      && blocks == blocks0 + [Block(grant, PagesFor(size), [])]
      && bytes == Zeroed(bytes0, grant, grant + PagesFor(size) * PAGE_SIZE)
      && Choose(blocks0, size, start) == FreshBlock
    }

    /** Memory and result are those of a request placed at `s`. */
    ghost predicate Satisfied(blocks0: seq<Block>, bytes0: Bytes, req: nat, s: Spot, grant: nat, p: int)
      requires s.Gap? ==> s.i < |blocks0| && s.j <= |blocks0[s.i].items|
      reads `blocks, `bytes
    {
      && blocks == AfterMalloc(blocks0, req, s, grant)
      && bytes == AfterMallocBytes(bytes0, blocks0, req, s, grant)
      && p == (if s.FreshBlock? && grant == 0 then 0 else NewItem(blocks0, req, s, grant).Payload())
    }

    /** malloc on an empty heap: the first major becomes the root, the bet, and the place of the request. */
    method FirstMalloc(size: nat, req: nat, grant: nat) returns (p: int)
      requires Rep() && blocks == [] && size == req + ALIGNMENT + ALIGN_INFO
      modifies `majors, `minors, `bytes, `memRoot, `bestBet, `reserved, `inuse, `warningCount, `blocks
      ensures Rep() && Satisfied([], old(bytes), req, FreshBlock, grant, p)
      ensures warningCount == old(warningCount) + (if p == 0 then 1 else 0) && bestBet == grant
    {
      GrowRoot(size, grant);
      if memRoot == 0 {
        p := 0;
        return;
      }
      // The provider is asked once per call: the new root has room.
      FreshBlockFits(grant, size);
      ChooseScanned(blocks, size, Start(size), 0, false);
      PlacedInFresh([], grant, req);
      BetFirst(blocks, size);
      p := SearchMajors(size, req, 0);
    }

    /**
      malloc.  `grant` is what the page provider would answer, 0 for NULL.  The request
      goes to the first gap that fits, counting from the best bet when that has room
      and from the root otherwise; a fresh block is used only when no gap anywhere fits.
     */
    method Kmalloc(req: nat, grant: nat) returns (p: int)
      requires Valid() && req <= MAX_REQUEST
      requires GrantOk(blocks, grant, PagesFor(req + ALIGNMENT + ALIGN_INFO))
      modifies `majors, `minors, `bytes, `memRoot, `bestBet, `reserved, `inuse, `warningCount, `blocks
      ensures Valid()
      ensures var size := req + ALIGNMENT + ALIGN_INFO;
        Satisfied(old(blocks), old(bytes), req, Choose(old(blocks), size, old(Start(size))), grant, p)
      ensures warningCount == old(warningCount) + if p == 0 then 1 else 0
      ensures old(blocks) == [] ==> bestBet == grant
      ensures old(blocks) != [] ==> var size := req + ALIGNMENT + ALIGN_INFO;
        bestBet == BetAfterSearch(old(blocks), old(Start(size)), old(FromBet(size)), old(FirstBet()), size, grant)
    {
      var size := req + ALIGNMENT + ALIGN_INFO;
      RootIsNull(blocks);
      MallocKeepsWellFormed(blocks, req, Choose(blocks, size, Start(size)), grant);
      MallocKeepsBounded(blocks, req, Choose(blocks, size, Start(size)), grant);
      if memRoot == 0 {
        p := FirstMalloc(size, req, grant);
        return;
      }
      p := SearchMajors(size, req, grant);
    }

    /** The header a pointer leads to, after UNALIGN. */
    method MinorOfPointer(ptr: int) returns (min: int)
      ensures min == HeaderOf(bytes, ptr) == (if Peek(bytes, ptr - 16) < 32 then ptr - Peek(bytes, ptr - 16) else ptr) - 40
    {
      var raw := ptr;
      var diff := Peek(bytes, ptr - ALIGN_INFO);
      if diff < ALIGNMENT + ALIGN_INFO {
        raw := raw - diff;
      }
      min := raw - HEADER;
    }

    /** free or realloc met a header without the live magic number. */
    method RejectMagic(magic: nat)
      modifies `errorCount, `possibleOverruns
      ensures errorCount == old(errorCount) + 1
      ensures possibleOverruns == old(possibleOverruns) + if magic % 0x100 == 0xDE then 1 else 0
    {
      errorCount := errorCount + 1;
      if magic % 0x1000000 == MAGIC % 0x1000000 || magic % 0x10000 == MAGIC % 0x10000 || magic % 0x100 == MAGIC % 0x100 {
        possibleOverruns := possibleOverruns + 1;
      }
    }

    /** Marks the header dead and closes the list around it. */
    method UnlinkMinor(min: nat, ghost b: Block, ghost j: nat)
      requires BlockOk(b) && MinorsMatch(minors, b) && j < |b.items| && min == b.items[j].at
      modifies `minors
      ensures minors == UnlinkMinors(old(minors), b, j) && min in minors && minors[min].magic == 0xDEAD_DEAD
    {
      UnlinkWrites(minors, b, j);
      var prev, next := minors[min].prev, minors[min].next;
      minors := minors[min := minors[min].(magic := DEAD)];
      if next != 0 {
        minors := minors[next := minors[next].(prev := prev)];
      }
      if prev != 0 {
        minors := minors[prev := minors[prev].(next := next)];
      }
    }

    /** The major no longer counts the item, nor begins with it. */
    method UnlinkMajor(maj: nat, min: nat, ghost i: nat, ghost j: nat)
      requires MajorsMatch(majors, blocks) && Live(blocks, i, j) && maj == blocks[i].at && min in minors
      requires minors[min] == MinorOf(blocks[i], j) && (PrevItem(blocks[i], j) == 0 <==> j == 0)
      modifies `majors
      ensures majors == UnlinkMajors(old(majors), blocks, i, j)
    {
      assert MajorAt(majors, blocks, i);
      RemoveUsage(blocks[i], j);
      majors := majors[maj := majors[maj].(usage := majors[maj].usage - (minors[min].size + HEADER))];
      if minors[min].prev == 0 {
        majors := majors[maj := majors[maj].(first := minors[min].next)];
      }
    }

    /** Accounting and unlinking of a live item; its block may be left empty. */
    method Unlink(min: nat, ghost i: nat, ghost j: nat) returns (maj: nat)
      requires Rep() && Live(blocks, i, j) && min == blocks[i].items[j].at
      modifies `majors, `minors, `inuse, `blocks
      ensures Rep()
      ensures maj == old(blocks)[i].at
      ensures blocks == old(blocks)[i := WithoutItem(old(blocks)[i], j)]
      ensures min in minors && minors[min].magic == 0xDEAD_DEAD
    {
      ghost var b := blocks[i];
      assert MajorAt(majors, blocks, i) && BlockMatch(minors, bytes, b) && BlockOk(b);
      UnlinkWrites(minors, b, j);
      RemoveUsage(b, j);
      TotalsAround(blocks, i);
      maj := minors[min].block;
      inuse := inuse - minors[min].size;
      UnlinkMajor(maj, min, i, j);
      UnlinkMinor(min, b, j);
      RemoveSpells(old(majors), old(minors), bytes, blocks, i, j);
      CountersReplace(blocks, i, WithoutItem(b, j), bestBet);
      blocks := blocks[i := WithoutItem(b, j)];
    }

    /** The last item of the block is gone: unlink the block and give its pages back. */
    method DropMajorAt(maj: nat, ghost i: nat)
      requires Rep() && i < |blocks| && maj == blocks[i].at && blocks[i].items == []
      modifies `majors, `minors, `memRoot, `bestBet, `reserved, `blocks
      ensures Rep()
      ensures blocks == old(blocks)[..i] + old(blocks)[i + 1..]
      ensures bestBet == if old(bestBet) == maj then 0 else old(bestBet)
    {
      DropWrites(majors, blocks, i);
      DropCounters(blocks, i, bestBet);
      DropKeepsBlocksOk(blocks, i);
      DropSpells(majors, minors, bytes, blocks, i);
      var m := majors[maj];
      if memRoot == maj {
        memRoot := m.next;
      }
      if bestBet == maj {
        bestBet := 0;
      }
      if m.prev != 0 {
        majors := majors[m.prev := majors[m.prev].(next := m.next)];
      }
      if m.next != 0 {
        majors := majors[m.next := majors[m.next].(prev := m.prev)];
      }
      reserved := reserved - m.size;
      majors := majors - {maj};
      minors := Released(minors, maj, maj + m.size);
      blocks := blocks[..i] + blocks[i + 1..];
    }

    /** The end of free: give an emptied block back, or see whether this block is the better bet now. */
    method Settle(maj: nat, ghost i: nat)
      requires Rep() && i < |blocks| && maj == blocks[i].at
      modifies `majors, `minors, `memRoot, `bestBet, `reserved, `blocks
      ensures Rep()
      ensures blocks == Settled(old(blocks), i) && bestBet == BetAfterFree(old(blocks), i, old(bestBet))
      ensures old(blocks)[i].items != [] ==> minors == old(minors)
    {
      FieldsOf(majors, minors, bytes, blocks, i);
      FirstIsNull(blocks[i]);
      if majors[maj].first == 0 {
        DropMajorAt(maj, i);
      } else if bestBet != 0 {
        FieldsOf(majors, minors, bytes, blocks, IndexOf(blocks, bestBet));
        var bestSize := AsInt32(majors[bestBet].size - majors[bestBet].usage);
        var majSize := AsInt32(majors[maj].size - majors[maj].usage);
        if majSize > bestSize {
          bestBet := maj;
        }
      }
    }

    /** free behind a live header: the record leaves its block, then the block is settled. */
    method FreeLive(min: int) returns (ghost i: nat, ghost j: nat)
      requires Valid() && min in minors && minors[min].magic == MAGIC
      modifies `majors, `minors, `inuse, `memRoot, `bestBet, `reserved, `blocks
      ensures Valid()
      ensures Live(old(blocks), i, j) && old(blocks)[i].items[j].at == min
      ensures blocks == AfterFree(old(blocks), i, j) && bestBet == BetFreed(old(blocks), i, j, old(bestBet))
      ensures |old(blocks)[i].items| > 1 ==> min in minors && minors[min].magic == 0xDEAD_DEAD
    {
      i, j := FindItem(minors, bytes, blocks, majors, min);
      FreeKeepsWellFormed(blocks, i, j);
      FreeKeepsBounded(blocks, i, j);
      SettledIsFreed(blocks, i, j);
      var maj := Unlink(min, i, j);
      Settle(maj, i);
    }

    /** free: the item of the header behind `ptr` goes, and with it its block when that is left empty. */
    method Kfree(ptr: int) returns (ghost i: nat, ghost j: nat)
      requires Valid() && Recognised(ptr)
      modifies this
      ensures Valid()
      ensures bytes == old(bytes)
      ensures ptr == 0 || old(minors)[HeaderOf(bytes, ptr)].magic != 0xC001_C0DE ==> blocks == old(blocks)
      ensures ptr == 0 ==> warningCount == old(warningCount) + 1
      ensures ptr != 0 && old(minors)[HeaderOf(bytes, ptr)].magic != 0xC001_C0DE ==>
        && errorCount == old(errorCount) + 1
        && possibleOverruns == old(possibleOverruns) + if old(minors)[HeaderOf(bytes, ptr)].magic % 0x100 == 0xDE then 1 else 0
      ensures ptr != 0 && old(minors)[HeaderOf(bytes, ptr)].magic == 0xC001_C0DE ==>
        && Live(old(blocks), i, j)
        && old(blocks)[i].items[j].at == HeaderOf(bytes, ptr)
        && blocks == AfterFree(old(blocks), i, j) && bestBet == BetFreed(old(blocks), i, j, old(bestBet))
        && errorCount == old(errorCount) && warningCount == old(warningCount) && possibleOverruns == old(possibleOverruns)
        && (|old(blocks)[i].items| > 1 ==> HeaderOf(bytes, ptr) in minors && minors[HeaderOf(bytes, ptr)].magic == 0xDEAD_DEAD)
    {
      i, j := 0, 0;
      if ptr == 0 {
        warningCount := warningCount + 1;
        return;
      }
      var min := MinorOfPointer(ptr);
      if minors[min].magic != MAGIC {
        RejectMagic(minors[min].magic);
        return;
      }
      i, j := FreeLive(min);
    }

    /**
      malloc followed by free of what it returned: the layout, the block headers with all
      their links, the root and both totals are back, and no byte of a live payload changed.
     */
    method AllocateAndFree(req: nat, grant: nat) returns (p: int)
      requires Valid() && req <= MAX_REQUEST
      requires GrantOk(blocks, grant, PagesFor(req + ALIGNMENT + ALIGN_INFO))
      modifies this
      ensures Valid() && blocks == old(blocks) && majors == old(majors)
      ensures memRoot == old(memRoot) && reserved == old(reserved) && inuse == old(inuse)
      ensures forall i, j, a {:trigger InPayload(blocks, i, j, a)} :: InPayload(blocks, i, j, a) ==> Peek(bytes, a) == Peek(old(bytes), a)
    {
      ghost var s := Place(req);
      ghost var blocks0, majors0, bytes0 := blocks, majors, bytes;
      p := Kmalloc(req, grant);
      forall i, j, a | InPayload(blocks0, i, j, a)
        ensures Peek(bytes, a) == Peek(bytes0, a)
      {
        MallocKeepsPayload(blocks0, bytes0, req, s, grant, i, j, a);
      }
      if p != 0 {
        FreePlaced(req, grant, p, s, blocks0);
      }
      MajorsDetermined(majors, majors0, blocks);
    }

    /** Freeing twice: as long as the block is still there, the second call is caught and changes nothing. */
    method FreeTwice(ptr: int, ghost i: nat, ghost j: nat)
      requires Valid() && Live(blocks, i, j) && ptr == blocks[i].items[j].Payload() && ptr != 0 && |blocks[i].items| > 1
      modifies this
      ensures Valid() && blocks == AfterFree(old(blocks), i, j) && errorCount == old(errorCount) + 1
    {
      ghost var blocks0 := blocks;
      LiveHeader(majors, minors, bytes, blocks, i, j);
      ghost var k, l := Kfree(ptr);
      HeaderIsUnique(blocks0, i, j, k, l);
      k, l := Kfree(ptr);
    }

    method FreePlaced(ghost req: nat, ghost grant: nat, p: int, ghost s: Spot, ghost blocks0: seq<Block>)
      requires Valid() && WellFormed(blocks0) && SpotOk(blocks0, req + ALIGNMENT + ALIGN_INFO, s)
      requires GrantOk(blocks0, grant, PagesFor(req + ALIGNMENT + ALIGN_INFO)) && (s.FreshBlock? ==> grant != 0)
      requires blocks == AfterMalloc(blocks0, req, s, grant) && p == NewItem(blocks0, req, s, grant).Payload() && p != 0
      modifies this
      ensures Valid() && blocks == blocks0 && bytes == old(bytes)
    {
      MallocAdds(blocks0, req, s, grant);
      ghost var n := NewIndex(blocks0, s);
      LiveHeader(majors, minors, bytes, blocks, n.0, n.1);
      ghost var k, l := Kfree(p);
      FreeUndoesMalloc(blocks0, req, s, grant, k, l);
    }

    method CopyWord(ldest: int, lsrc: int, ghost before: Bytes, ghost dst: int, ghost src: int, ghost k: nat, ghost n: nat)
      requires (dst + n <= src || src + n <= dst) && k + 4 <= n && ldest == dst + k && lsrc == src + k
      requires Copied(before, bytes, dst, src, k)
      modifies `bytes
      ensures Copied(before, bytes, dst, src, k + 4)
    {
      CopyWordStep(before, bytes, dst, src, k, n);
      bytes := StoreWord(bytes, ldest, LoadWord(bytes, lsrc));
    }

    /** Word by word, then byte by byte; the ranges do not overlap. */
    method Memcpy(dst: int, src: int, n: nat)
      requires dst + n <= src || src + n <= dst
      modifies `bytes
      ensures Copied(old(bytes), bytes, dst, src, n)
    {
      var ldest, lsrc, left := dst, src, n;
      while left >= 4
        invariant 0 <= left <= n && ldest == dst + (n - left) && lsrc == src + (n - left)
        invariant Copied(old(bytes), bytes, dst, src, n - left)
      {
        CopyWord(ldest, lsrc, old(bytes), dst, src, n - left, n);
        ldest, lsrc, left := ldest + 4, lsrc + 4, left - 4;
      }
      while left > 0
        invariant 0 <= left <= n && ldest == dst + (n - left) && lsrc == src + (n - left)
        invariant Copied(old(bytes), bytes, dst, src, n - left)
      {
        CopyByteStep(old(bytes), bytes, dst, src, n - left, n);
        bytes := bytes[ldest := Peek(bytes, lsrc)];
        ldest, lsrc, left := ldest + 1, lsrc + 1, left - 1;
      }
    }

    /** The first half of a growing realloc: a new item that begins with the old bytes. */
    method CopyOut(p: int, size: nat, grant: nat, ghost i: nat, ghost j: nat) returns (q: int)
      requires Valid() && size <= MAX_REQUEST && GrantOk(blocks, grant, PagesFor(size + ALIGNMENT + ALIGN_INFO))
      requires Live(blocks, i, j) && p == blocks[i].items[j].Payload() && blocks[i].items[j].req < size
      requires Place(size).FreshBlock? ==> grant != 0
      modifies this
      ensures Valid()
      ensures var s := old(Place(size));
        q == NewItem(old(blocks), size, s, grant).Payload() && blocks == AfterMalloc(old(blocks), size, s, grant)
      ensures Arrived(old(bytes), bytes, p, q, old(blocks)[i].items[j].req)
      ensures KeepsOthers(old(blocks), old(bytes), bytes, i, j)
    {
      ghost var s := Place(size);
      ghost var blocks0 := blocks;
      ghost var k, n := Shifted(s, i, j), NewIndex(blocks0, s);
      LiveHeader(majors, minors, bytes, blocks, i, j);
      MallocShifts(blocks0, size, s, grant, i, j);
      MallocAdds(blocks0, size, s, grant);
      var min := MinorOfPointer(p);
      var realSize := minors[min].req;
      q := Kmalloc(size, grant);
      ghost var bytes1 := bytes;
      PayloadsApart(blocks, k.0, k.1, n.0, n.1);
      Memcpy(q, p, realSize);
      WriteInPayload(majors, minors, bytes1, bytes, blocks, n.0, n.1);
      MoveBytes(blocks0, old(bytes), bytes1, bytes, size, s, grant, i, j);
    }

    /** realloc that has to grow: a new item, the old bytes copied, the old item freed. */
    method Move(p: int, size: nat, grant: nat, ghost i: nat, ghost j: nat) returns (q: int)
      requires Valid() && size <= MAX_REQUEST && GrantOk(blocks, grant, PagesFor(size + ALIGNMENT + ALIGN_INFO))
      requires Live(blocks, i, j) && p == blocks[i].items[j].Payload() && blocks[i].items[j].req < size
      requires Place(size).FreshBlock? ==> grant != 0
      modifies this
      ensures Valid()
      ensures Moved(old(blocks), old(Place(size)), size, grant, i, j, q)
      ensures Arrived(old(bytes), bytes, p, q, old(blocks)[i].items[j].req)
      ensures KeepsOthers(old(blocks), old(bytes), bytes, i, j)
    {
      ghost var s := Place(size);
      ghost var k := Shifted(s, i, j);
      MallocShifts(blocks, size, s, grant, i, j);
      q := CopyOut(p, size, grant, i, j);
      ghost var blocks1 := blocks;
      LiveHeader(majors, minors, bytes, blocks, k.0, k.1);
      ghost var i', j' := Kfree(p);
      HeaderIsUnique(blocks1, k.0, k.1, i', j');
    }

    /** The item has been placed anew at `s` and its old place freed. */
    ghost predicate Moved(blocks0: seq<Block>, s: Spot, size: nat, grant: nat, i: nat, j: nat, q: int)
      requires s.Gap? ==> s.i < |blocks0| && s.j <= |blocks0[s.i].items|
      reads `blocks
    {
      var after, k := AfterMalloc(blocks0, size, s, grant), Shifted(s, i, j);
      && q == NewItem(blocks0, size, s, grant).Payload()
      && Live(after, k.0, k.1)
      && blocks == AfterFree(after, k.0, k.1)
    }

    /** realloc that fits in what was asked for before: only the header's request changes. */
    method Shrink(min: nat, size: nat, ghost i: nat, ghost j: nat)
      requires Valid() && Live(blocks, i, j) && min == blocks[i].items[j].at && size <= blocks[i].items[j].req
      modifies `minors, `blocks
      ensures Valid()
      ensures blocks == AfterShrink(old(blocks), i, j, size)
    {
      ShrinkKeepsWellFormed(blocks, i, j, size);
      ShrinkSpells(majors, minors, bytes, blocks, i, j, size);
      CountersReplace(blocks, i, WithRequest(blocks[i], j, size), bestBet);
      minors := minors[min := minors[min].(req := size)];
      blocks := AfterShrink(blocks, i, j, size);
    }

    /** realloc to no bytes at all is free. */
    method ReallocToNothing(p: int) returns (ghost i: nat, ghost j: nat)
      requires Valid() && Recognised(p)
      requires p != 0 && minors[HeaderOf(bytes, p)].magic == 0xC001_C0DE ==> p == Align(HeaderOf(bytes, p) + HEADER)
      modifies this
      ensures Valid() && bytes == old(bytes)
      ensures p == 0 ==> blocks == old(blocks)
      ensures p != 0 && old(minors)[HeaderOf(bytes, p)].magic != 0xC001_C0DE ==>
        && blocks == old(blocks) && errorCount == old(errorCount) + 1
        && possibleOverruns == old(possibleOverruns) + if old(minors)[HeaderOf(bytes, p)].magic % 0x100 == 0xDE then 1 else 0
      ensures p != 0 && old(minors)[HeaderOf(bytes, p)].magic == 0xC001_C0DE ==>
        && Live(old(blocks), i, j) && p == old(blocks)[i].items[j].Payload()
        && KeepsOthers(old(blocks), bytes, bytes, i, j) && blocks == AfterFree(old(blocks), i, j)
    {
      i, j := Kfree(p);
    }

    /** realloc. */
    method Krealloc(p: int, size: nat, grant: nat) returns (q: int, ghost i: nat, ghost j: nat)
      requires Valid() && size <= MAX_REQUEST && GrantOk(blocks, grant, PagesFor(size + ALIGNMENT + ALIGN_INFO))
      requires Recognised(p) && (p != 0 && minors[HeaderOf(bytes, p)].magic == 0xC001_C0DE ==> p == Align(HeaderOf(bytes, p) + HEADER))
      requires p != 0 && minors[HeaderOf(bytes, p)].magic == 0xC001_C0DE && minors[HeaderOf(bytes, p)].req < size && Place(size).FreshBlock? ==> grant != 0
      modifies this
      ensures Valid()
      ensures p == 0 && size != 0 ==> Satisfied(old(blocks), old(bytes), size, old(Place(size)), grant, q)
      ensures size == 0 ==> q == 0
      ensures p == 0 && size == 0 ==> blocks == old(blocks)
      ensures p != 0 && old(minors)[HeaderOf(old(bytes), p)].magic != 0xC001_C0DE ==>
        && q == 0 && blocks == old(blocks) && bytes == old(bytes) && errorCount == old(errorCount) + 1
        && possibleOverruns == old(possibleOverruns) + if old(minors)[HeaderOf(old(bytes), p)].magic % 0x100 == 0xDE then 1 else 0
      ensures p != 0 && old(minors)[HeaderOf(old(bytes), p)].magic == 0xC001_C0DE ==>
        && Live(old(blocks), i, j) && p == old(blocks)[i].items[j].Payload()
        && KeepsOthers(old(blocks), old(bytes), bytes, i, j)
        && if size == 0 then blocks == AfterFree(old(blocks), i, j)
           else if size <= old(blocks)[i].items[j].req then q == p && bytes == old(bytes) && blocks == AfterShrink(old(blocks), i, j, size)
           else
             && Moved(old(blocks), old(Place(size)), size, grant, i, j, q)
             && Arrived(old(bytes), bytes, p, q, old(blocks)[i].items[j].req)
    {
      i, j := 0, 0;
      if size == 0 {
        i, j := ReallocToNothing(p);
        q := 0;
        return;
      }
      if p == 0 {
        q := Kmalloc(size, grant);
        return;
      }
      q, i, j := ReallocAt(p, size, grant);
    }

    /** realloc of a pointer to a size that is not 0. */
    method ReallocAt(p: int, size: nat, grant: nat) returns (q: int, ghost i: nat, ghost j: nat)
      requires Valid() && 0 < size <= MAX_REQUEST && GrantOk(blocks, grant, PagesFor(size + ALIGNMENT + ALIGN_INFO))
      requires p != 0 && Recognised(p) && (minors[HeaderOf(bytes, p)].magic == 0xC001_C0DE ==> p == Align(HeaderOf(bytes, p) + HEADER))
      requires minors[HeaderOf(bytes, p)].magic == 0xC001_C0DE && minors[HeaderOf(bytes, p)].req < size && Place(size).FreshBlock? ==> grant != 0
      modifies this
      ensures Valid()
      ensures old(minors)[HeaderOf(old(bytes), p)].magic != 0xC001_C0DE ==>
        && q == 0 && blocks == old(blocks) && bytes == old(bytes) && errorCount == old(errorCount) + 1
        && possibleOverruns == old(possibleOverruns) + if old(minors)[HeaderOf(old(bytes), p)].magic % 0x100 == 0xDE then 1 else 0
      ensures old(minors)[HeaderOf(old(bytes), p)].magic == 0xC001_C0DE ==>
        && Live(old(blocks), i, j) && p == old(blocks)[i].items[j].Payload()
        && KeepsOthers(old(blocks), old(bytes), bytes, i, j)
        && if size <= old(blocks)[i].items[j].req then q == p && bytes == old(bytes) && blocks == AfterShrink(old(blocks), i, j, size)
           else
             && Moved(old(blocks), old(Place(size)), size, grant, i, j, q)
             && Arrived(old(bytes), bytes, p, q, old(blocks)[i].items[j].req)
    {
      i, j := 0, 0;
      var min := MinorOfPointer(p);
      if minors[min].magic != MAGIC {
        RejectMagic(minors[min].magic);
        q := 0;
        return;
      }
      i, j := FindItem(minors, bytes, blocks, majors, min);
      LiveHeader(majors, minors, bytes, blocks, i, j);
      if minors[min].req >= size {
        Shrink(min, size, i, j);
        q := p;
        return;
      }
      q := Move(p, size, grant, i, j);
    }

    /** The place malloc would choose for a request. */
    ghost function Place(req: nat): (s: Spot)
      requires Rep()
      reads this
      ensures SpotOk(blocks, req + ALIGNMENT + ALIGN_INFO, s)
    {
      Choose(blocks, req + ALIGNMENT + ALIGN_INFO, Start(req + ALIGNMENT + ALIGN_INFO))
    }

    /** The pointer leads to an item header, live or dead. */
    ghost predicate Recognised(ptr: int)
      reads this
    {
      ptr != 0 ==> HeaderOf(bytes, ptr) in minors
    }
  }

  /** The first `n` bytes behind `q` are those that were behind `p`. */
  ghost predicate Arrived(bytes: Bytes, bytes': Bytes, p: int, q: int, n: nat)
  {
    forall a {:trigger Peek(bytes', a)} :: q <= a < q + n ==> Peek(bytes', a) == Peek(bytes, a - q + p)
  }

  /** Every byte of every live payload but one is as before. */
  ghost predicate KeepsOthers(blocks: seq<Block>, bytes: Bytes, bytes': Bytes, i: nat, j: nat)
  {
    forall k, l, a {:trigger InPayload(blocks, k, l, a)} :: InPayload(blocks, k, l, a) && (k != i || l != j) ==> Peek(bytes', a) == Peek(bytes, a)
  }

  function WithRequest(b: Block, j: nat, req: nat): Block
    requires j < |b.items|
  {
    b.(items := b.items[j := b.items[j].(req := req)])
  }

  function AfterShrink(blocks: seq<Block>, i: nat, j: nat, req: nat): seq<Block>
    requires i < |blocks| && j < |blocks[i].items|
  {
    blocks[i := WithRequest(blocks[i], j, req)]
  }

  lemma ShrinkKeepsWellFormed(blocks: seq<Block>, i: nat, j: nat, req: nat)
    requires WellFormed(blocks) && Live(blocks, i, j) && req <= blocks[i].items[j].req
    ensures WellFormed(AfterShrink(blocks, i, j, req))
    ensures Sizes(WithRequest(blocks[i], j, req).items) == Sizes(blocks[i].items)
  {
    var b := blocks[i];
    var c := WithRequest(b, j, req);
    assert BlockOk(b);
    forall k | 0 <= k < |c.items|
      ensures ItemOk(c, c.items[k])
    {
      assert ItemOk(b, b.items[k]);
    }
    forall k, l | 0 <= k < l < |c.items|
      ensures Precedes(c.items[k], c.items[l])
    {
      assert Precedes(b.items[k], b.items[l]);
    }
    ReplaceKeepsBlocksOk(blocks, i, c);
    assert b.items == b.items[..j] + [b.items[j]] + b.items[j + 1..];
    assert c.items == b.items[..j] + [c.items[j]] + b.items[j + 1..];
    SizesConcat(b.items[..j] + [b.items[j]], b.items[j + 1..]);
    SizesConcat(b.items[..j], [b.items[j]]);
    SizesConcat(b.items[..j] + [c.items[j]], b.items[j + 1..]);
    SizesConcat(b.items[..j], [c.items[j]]);
  }

  lemma ShrinkBlock(minors: Minors, bytes: Bytes, b: Block, j: nat, req: nat)
    requires BlockOk(b) && BlockMatch(minors, bytes, b) && j < |b.items|
    ensures b.items[j].at in minors
    ensures BlockMatch(minors[b.items[j].at := minors[b.items[j].at].(req := req)], bytes, WithRequest(b, j, req))
  {
    var c := WithRequest(b, j, req);
    assert MinorAt(minors, b, j);
    var minors' := minors[b.items[j].at := minors[b.items[j].at].(req := req)];
    ItemHeadersDiffer(b);
    forall k | 0 <= k < |c.items|
      ensures MinorAt(minors', c, k) && HasMark(bytes, c.items[k])
    {
      assert MinorAt(minors, b, k) && HasMark(bytes, b.items[k]);
    }
    forall a | a in minors' && c.Covers(a) && minors'[a].magic == MAGIC
      ensures IsItem(c, a)
    {
      assert IsItem(b, a);
      var k :| 0 <= k < |b.items| && b.items[k].at == a;
      assert c.items[k].at == a;
    }
  }

  lemma ShrinkSpells(majors: Majors, minors: Minors, bytes: Bytes, blocks: seq<Block>, i: nat, j: nat, req: nat)
    requires BlocksOk(blocks) && Spells(majors, minors, bytes, blocks) && Live(blocks, i, j) && req <= blocks[i].items[j].req
    requires Sizes(WithRequest(blocks[i], j, req).items) == Sizes(blocks[i].items)
    ensures blocks[i].items[j].at in minors
    ensures Spells(majors, minors[blocks[i].items[j].at := minors[blocks[i].items[j].at].(req := req)], bytes, AfterShrink(blocks, i, j, req))
  {
    var b, after := blocks[i], AfterShrink(blocks, i, j, req);
    var at := b.items[j].at;
    assert BlockMatch(minors, bytes, b) && BlockOk(b);
    ShrinkBlock(minors, bytes, b, j, req);
    ShrinkMajors(majors, blocks, i, j, req);
    var minors' := minors[at := minors[at].(req := req)];
    forall k | 0 <= k < |blocks| && k != i
      ensures BlockMatch(minors', bytes, blocks[k])
    {
      ShrinkOther(minors, bytes, blocks, i, j, req, k);
    }
    forall a | a in minors'
      ensures InBlock(after, a)
    {
      assert InBlock(blocks, a);
      var k :| 0 <= k < |blocks| && blocks[k].Covers(a);
      assert after[k].Covers(a);
    }
  }

  lemma ShrinkOther(minors: Minors, bytes: Bytes, blocks: seq<Block>, i: nat, j: nat, req: nat, k: nat)
    requires BlocksOk(blocks) && Live(blocks, i, j) && blocks[i].items[j].at in minors && k < |blocks| && k != i
    requires BlockMatch(minors, bytes, blocks[k])
    ensures BlockMatch(minors[blocks[i].items[j].at := minors[blocks[i].items[j].at].(req := req)], bytes, blocks[k])
  {
    assert BlockOk(blocks[i]) && BlockOk(blocks[k]) && ItemOk(blocks[i], blocks[i].items[j]);
    assert Apart(blocks[i], blocks[k]) by {
      if i < k { assert Apart(blocks[i], blocks[k]); } else { assert Apart(blocks[k], blocks[i]); }
    }
    MatchFrame(minors, minors[blocks[i].items[j].at := minors[blocks[i].items[j].at].(req := req)], bytes, bytes, blocks[k]);
  }

  lemma ShrinkMajors(majors: Majors, blocks: seq<Block>, i: nat, j: nat, req: nat)
    requires MajorsMatch(majors, blocks) && Live(blocks, i, j)
    requires Sizes(WithRequest(blocks[i], j, req).items) == Sizes(blocks[i].items)
    ensures MajorsMatch(majors, AfterShrink(blocks, i, j, req))
  {
    var after := AfterShrink(blocks, i, j, req);
    assert forall k :: 0 <= k < |after| ==> after[k].at == blocks[k].at && after[k].pages == blocks[k].pages;
    forall k | 0 <= k < |after|
      ensures MajorAt(majors, after, k)
    {
      assert MajorAt(majors, blocks, k);
    }
    forall a | a in majors
      ensures IsBlock(after, a)
    {
      assert IsBlock(blocks, a);
      var k :| 0 <= k < |blocks| && blocks[k].at == a;
      assert after[k].at == a;
    }
  }

  lemma PayloadsApart(blocks: seq<Block>, i: nat, j: nat, k: nat, l: nat)
    requires BlocksOk(blocks) && Live(blocks, i, j) && Live(blocks, k, l) && (i != k || j != l)
    ensures var x, y := blocks[i].items[j], blocks[k].items[l];
      x.Payload() + x.req <= y.Payload() || y.Payload() + y.req <= x.Payload()
  {
    assert BlockOk(blocks[i]) && BlockOk(blocks[k]);
    assert ItemOk(blocks[i], blocks[i].items[j]) && ItemOk(blocks[k], blocks[k].items[l]);
    PayloadInsideItem(blocks[i], blocks[i].items[j]);
    PayloadInsideItem(blocks[k], blocks[k].items[l]);
    ItemsDisjoint(blocks, i, j, k, l);
  }

  /** malloc changes no byte of a live payload. */
  lemma MallocKeepsPayload(blocks: seq<Block>, bytes: Bytes, req: nat, s: Spot, grant: nat, i: nat, j: nat, a: int)
    requires WellFormed(blocks) && SpotOk(blocks, req + ALIGNMENT + ALIGN_INFO, s)
    requires GrantOk(blocks, grant, PagesFor(req + ALIGNMENT + ALIGN_INFO))
    requires InPayload(blocks, i, j, a)
    ensures Peek(AfterMallocBytes(bytes, blocks, req, s, grant), a) == Peek(bytes, a)
  {
    var it := blocks[i].items[j];
    assert BlockOk(blocks[i]) && ItemOk(blocks[i], it);
    PayloadInsideItem(blocks[i], it);
    if s.FreshBlock? && grant != 0 {
      var b := FreshBlockAt(grant, req);
      assert Apart(Block(grant, b.pages, []), blocks[i]);
      assert ItemOk(b, b.items[0]);
      PayloadInsideItem(b, b.items[0]);
    } else if s.Gap? {
      var new_ := ItemIn(blocks[s.i], s.j, req);
      assert BlockOk(blocks[s.i]);
      ChosenInGap(blocks[s.i], s.j, req);
      PayloadInsideItem(blocks[s.i], new_);
      if s.i == i {
        assert if j < s.j then Precedes(it, new_) else Precedes(new_, it);
      } else {
        assert if i < s.i then Apart(blocks[i], blocks[s.i]) else Apart(blocks[s.i], blocks[i]);
      }
    }
  }

  /** A payload on pages that have just come reads as zeros. */
  lemma FreshPayloadIsZero(blocks: seq<Block>, bytes: Bytes, req: nat, grant: nat, a: int)
    requires grant != 0
    requires var p := NewItem(blocks, req, FreshBlock, grant).Payload(); p <= a < p + req
    ensures Peek(AfterMallocBytes(bytes, blocks, req, FreshBlock, grant), a) == 0
  {
    var b := FreshBlockAt(grant, req);
    assert ItemOk(b, b.items[0]);
    PayloadInsideItem(b, b.items[0]);
  }

  lemma MoveArrives(blocks: seq<Block>, bytes: Bytes, bytes1: Bytes, bytes2: Bytes, req: nat, s: Spot, grant: nat, i: nat, j: nat)
    requires WellFormed(blocks) && SpotOk(blocks, req + ALIGNMENT + ALIGN_INFO, s) && Live(blocks, i, j)
    requires GrantOk(blocks, grant, PagesFor(req + ALIGNMENT + ALIGN_INFO)) && (s.FreshBlock? ==> grant != 0)
    requires blocks[i].items[j].req < req
    requires bytes1 == AfterMallocBytes(bytes, blocks, req, s, grant)
    requires var p, q := blocks[i].items[j].Payload(), NewItem(blocks, req, s, grant).Payload();
      Copied(bytes1, bytes2, q, p, blocks[i].items[j].req)
    ensures var p, q := blocks[i].items[j].Payload(), NewItem(blocks, req, s, grant).Payload();
      Arrived(bytes, bytes2, p, q, blocks[i].items[j].req)
  {
    var p, q := blocks[i].items[j].Payload(), NewItem(blocks, req, s, grant).Payload();
    forall a | q <= a < q + blocks[i].items[j].req
      ensures Peek(bytes2, a) == Peek(bytes, a - q + p)
    {
      assert InPayload(blocks, i, j, a - q + p);
      MallocKeepsPayload(blocks, bytes, req, s, grant, i, j, a - q + p);
    }
  }

  /** Copying into the new payload after malloc: the old contents arrive and all others stay. */
  lemma MoveBytes(blocks: seq<Block>, bytes: Bytes, bytes1: Bytes, bytes2: Bytes, req: nat, s: Spot, grant: nat, i: nat, j: nat)
    requires WellFormed(blocks) && SpotOk(blocks, req + ALIGNMENT + ALIGN_INFO, s) && Live(blocks, i, j)
    requires GrantOk(blocks, grant, PagesFor(req + ALIGNMENT + ALIGN_INFO)) && (s.FreshBlock? ==> grant != 0)
    requires blocks[i].items[j].req < req
    requires bytes1 == AfterMallocBytes(bytes, blocks, req, s, grant)
    requires var p, q := blocks[i].items[j].Payload(), NewItem(blocks, req, s, grant).Payload();
      Copied(bytes1, bytes2, q, p, blocks[i].items[j].req)
    ensures var p, q := blocks[i].items[j].Payload(), NewItem(blocks, req, s, grant).Payload();
      Arrived(bytes, bytes2, p, q, blocks[i].items[j].req)
    ensures KeepsOthers(blocks, bytes, bytes2, i, j)
  {
    MoveArrives(blocks, bytes, bytes1, bytes2, req, s, grant, i, j);
    var after, n := AfterMalloc(blocks, req, s, grant), NewIndex(blocks, s);
    MallocKeepsWellFormed(blocks, req, s, grant);
    MallocAdds(blocks, req, s, grant);
    forall k, l, a | InPayload(blocks, k, l, a) && (k != i || l != j)
      ensures Peek(bytes2, a) == Peek(bytes, a)
    {
      MallocKeepsPayload(blocks, bytes, req, s, grant, k, l, a);
      MallocShifts(blocks, req, s, grant, k, l);
      var m := Shifted(s, k, l);
      PayloadsApart(after, m.0, m.1, n.0, n.1);
    }
  }

  /** An `unsigned int` read back as an `int`. */
  function AsInt32(x: int): int
  {
    if x % U32 < 0x8000_0000 then x % U32 else x % U32 - U32
  }

  ghost function Settled(blocks: seq<Block>, i: nat): seq<Block>
    requires i < |blocks|
  {
    if blocks[i].items == [] then blocks[..i] + blocks[i + 1..] else blocks
  }

  /** An emptied block is no bet any more; any other becomes the bet when it has more room than the bet so far. */
  ghost function BetAfterFree(blocks: seq<Block>, i: nat, bet: nat): nat
    requires i < |blocks| && (bet != 0 ==> IsBlock(blocks, bet))
  {
    if blocks[i].items == [] then (if bet == blocks[i].at then 0 else bet)
    else if bet != 0 && AsInt32(Free(blocks[i])) > AsInt32(Free(blocks[IndexOf(blocks, bet)])) then blocks[i].at
    else bet
  }

  lemma SameBlocks(blocks: seq<Block>, i: nat, j: nat, bet: nat)
    requires Live(blocks, i, j) && IsBlock(blocks, bet)
    ensures IsBlock(blocks[i := WithoutItem(blocks[i], j)], bet)
  {
    var after, k := blocks[i := WithoutItem(blocks[i], j)], IndexOf(blocks, bet);
    assert after[k].at == bet;
  }

  /** The bet after item `j` of block `i` has been freed. */
  ghost function BetFreed(blocks: seq<Block>, i: nat, j: nat, bet: nat): nat
    requires Live(blocks, i, j) && (bet != 0 ==> IsBlock(blocks, bet))
  {
    if bet == 0 then 0 else
      SameBlocks(blocks, i, j, bet);
      BetAfterFree(blocks[i := WithoutItem(blocks[i], j)], i, bet)
  }

  /** The bet after a free has at least as much room as the bet before and as the block freed in, while room fits an `int`. */
  lemma BetHasMoreRoom(blocks: seq<Block>, i: nat, bet: nat)
    requires i < |blocks| && blocks[i].items != [] && bet != 0 && IsBlock(blocks, bet)
    requires forall k :: 0 <= k < |blocks| ==> 0 <= Free(blocks[k]) < 0x8000_0000
    ensures var after := BetAfterFree(blocks, i, bet);
      && (after == bet || after == blocks[i].at)
      && (after != bet <==> blocks[i].at != bet && Free(blocks[i]) > Free(blocks[IndexOf(blocks, bet)]))
  {
  }

  lemma SettledIsFreed(blocks: seq<Block>, i: nat, j: nat)
    requires Live(blocks, i, j)
    ensures Settled(blocks[i := WithoutItem(blocks[i], j)], i) == AfterFree(blocks, i, j)
  {
  }

  lemma DropCounters(blocks: seq<Block>, i: nat, bet: nat)
    requires i < |blocks|
    ensures var after := blocks[..i] + blocks[i + 1..];
      && InUse(after) == InUse(blocks) - Sizes(blocks[i].items)
      && Allocated(after) == Allocated(blocks) - blocks[i].Size()
      && (IsBlock(blocks, bet) && bet != blocks[i].at ==> IsBlock(after, bet))
      && (if after == [] then 0 else after[0].at) == (if i == 0 then NextBlock(blocks, 0) else blocks[0].at)
  {
    var after := blocks[..i] + blocks[i + 1..];
    TotalsAround(blocks, i);
    TotalsConcat(blocks[..i], blocks[i + 1..]);
    if IsBlock(blocks, bet) && bet != blocks[i].at {
      var k := IndexOf(blocks, bet);
      assert after[if k < i then k else k - 1] == blocks[k];
    }
  }

  /** What the scan knows when it stands at block `i`. */
  ghost predicate Scanned(blocks: seq<Block>, need: nat, start: nat, i: nat, startedBet: bool)
  {
    && i < |blocks| && start <= |blocks|
    && (startedBet ==> start <= i && forall k :: start <= k < i ==> !HasGap(blocks[k], need))
    && (!startedBet ==> forall k :: 0 <= k < i ==> !HasGap(blocks[k], need))
    && (!startedBet ==> start == 0 || forall k :: start <= k < |blocks| ==> !HasGap(blocks[k], need))
  }

  /** Filling the block just added is what `AfterMalloc` says. */
  lemma PlacedInFresh(blocks: seq<Block>, at: nat, req: nat)
    ensures var size := req + ALIGNMENT + ALIGN_INFO;
      var b := Block(at, PagesFor(size), []);
      && ItemIn(b, 0, req) == FreshBlockAt(at, req).items[0]
      && (blocks + [b])[|blocks|] == b
      && (blocks + [b])[|blocks| := WithItem(b, 0, ItemIn(b, 0, req))] == blocks + [FreshBlockAt(at, req)]
  {
    var b := Block(at, PagesFor(req + ALIGNMENT + ALIGN_INFO), []);
    assert WithItem(b, 0, ItemIn(b, 0, req)) == FreshBlockAt(at, req);
  }

  lemma FreshBlockFits(at: nat, size: nat)
    ensures var b := Block(at, PagesFor(size), []);
      Fits(b, 0, size) && size + HEADER <= Free(b) && HasGap(b, size) && FirstGap(b, size, 0) == 0
  {
  }

  /** The bytes after malloc: pages just granted are zero, then a header and the alignment byte are written. */
  function AfterMallocBytes(bytes: Bytes, blocks: seq<Block>, req: nat, s: Spot, grant: nat): Bytes
    requires s.Gap? ==> s.i < |blocks| && s.j <= |blocks[s.i].items|
  {
    match s
    case Gap(i, j) => Mark(bytes, ItemIn(blocks[i], j, req))
    case FreshBlock =>
      if grant == 0 then bytes
      else
        var b := FreshBlockAt(grant, req);
        Mark(Zeroed(bytes, b.at, b.End()), b.items[0])
  }

  lemma RootIsNull(blocks: seq<Block>)
    requires BlocksOk(blocks)
    ensures (if blocks == [] then 0 else blocks[0].at) == 0 <==> blocks == []
  {
    if blocks != [] {
      assert BlockOk(blocks[0]);
    }
  }

  /** What the header of block `i` says. */
  lemma FieldsOf(majors: Majors, minors: Minors, bytes: Bytes, blocks: seq<Block>, i: nat)
    requires BlocksOk(blocks) && Spells(majors, minors, bytes, blocks) && i < |blocks|
    ensures blocks[i].at != 0 && blocks[i].at in majors && BlockOk(blocks[i])
    ensures var m := majors[blocks[i].at];
      && m.size - m.usage == Free(blocks[i]) >= 0
      && m.size == blocks[i].Size() && m.first == FirstItem(blocks[i])
      && (m.next == 0 <==> i + 1 == |blocks|)
      && (m.next != 0 ==> m.next == blocks[i + 1].at)
  {
    assert MajorAt(majors, blocks, i) && BlockOk(blocks[i]);
    FreeIsNonNegative(blocks[i]);
    if i + 1 < |blocks| {
      assert BlockOk(blocks[i + 1]);
    }
  }

  lemma FirstIsNull(b: Block)
    requires BlockOk(b)
    ensures FirstItem(b) == 0 <==> b.items == []
  {
    if b.items != [] {
      assert ItemOk(b, b.items[0]);
    }
  }

  lemma NextIsNull(b: Block, j: nat)
    requires BlockOk(b) && j < |b.items|
    ensures NextItem(b, j) == 0 <==> j + 1 == |b.items|
  {
    if j + 1 < |b.items| {
      assert ItemOk(b, b.items[j + 1]);
    }
  }

  lemma FirstGapIs(b: Block, need: nat, j: nat)
    requires j <= |b.items| && Fits(b, j, need) && forall k :: 0 <= k < j ==> !Fits(b, k, need)
    ensures HasGap(b, need) && FirstGap(b, need, 0) == j
  {
  }

  lemma CountersPlace(blocks: seq<Block>, i: nat, j: nat, it: Item, bet: nat)
    requires BlocksOk(blocks) && i < |blocks| && InGap(blocks[i], j, it)
    ensures var after := blocks[i := WithItem(blocks[i], j, it)];
      && BlocksOk(after)
      && InUse(after) == InUse(blocks) + it.size
      && Allocated(after) == Allocated(blocks)
      && (IsBlock(blocks, bet) ==> IsBlock(after, bet))
  {
    var c := WithItem(blocks[i], j, it);
    var after := blocks[i := c];
    InGapKeepsBlockOk(blocks[i], j, it);
    ReplaceKeepsBlocksOk(blocks, i, c);
    CountersReplace(blocks, i, c, bet);
    InsertUsage(blocks[i], j, it);
  }

  lemma CountersReplace(blocks: seq<Block>, i: nat, c: Block, bet: nat)
    requires i < |blocks| && c.at == blocks[i].at && c.pages == blocks[i].pages
    ensures var after := blocks[i := c];
      && InUse(after) == InUse(blocks) - Sizes(blocks[i].items) + Sizes(c.items)
      && Allocated(after) == Allocated(blocks)
      && (IsBlock(blocks, bet) ==> IsBlock(after, bet))
  {
    var after := blocks[i := c];
    TotalsAround(blocks, i);
    TotalsAround(after, i);
    assert after[..i] == blocks[..i] && after[i + 1..] == blocks[i + 1..];
    if IsBlock(blocks, bet) {
      assert after[IndexOf(blocks, bet)].at == bet;
    }
  }

  /** The writes that put a new major behind the last one, or make it the root. */
  lemma GrowSpells(majors: Majors, minors: Minors, bytes: Bytes, blocks: seq<Block>, b: Block)
    requires BlocksOk(blocks) && Spells(majors, minors, bytes, blocks) && b.items == []
    requires b.at != 0 && HEADER <= b.pages * PAGE_SIZE && GrantOk(blocks, b.at, b.pages)
    ensures BlocksOk(blocks + [b])
    ensures blocks != [] ==> blocks[|blocks| - 1].at != 0 && blocks[|blocks| - 1].at in majors && blocks[|blocks| - 1].at != b.at
    ensures var m := majors[b.at := Major(0, 0, b.pages, b.Size(), HEADER, 0)];
      if blocks == [] then Spells(m, minors, Zeroed(bytes, b.at, b.End()), [b])
      else
        var last := blocks[|blocks| - 1].at;
        var m' := m[last := m[last].(next := b.at)];
        Spells(m'[b.at := m'[b.at].(prev := last)], minors, Zeroed(bytes, b.at, b.End()), blocks + [b])
  {
    AppendSpells(majors, minors, bytes, blocks, b.at, b.pages);
    assert b == Block(b.at, b.pages, []);
    var linked := LinkBlock(majors, blocks, b.at, b.pages);
    var m := majors[b.at := Major(0, 0, b.pages, b.Size(), HEADER, 0)];
    if blocks == [] {
      assert blocks + [b] == [b];
    } else {
      var last := blocks[|blocks| - 1].at;
      assert MajorAt(majors, blocks, |blocks| - 1);
      assert BlockOk(blocks[|blocks| - 1]);
      GrantIsApart(blocks, b.at, b.pages);
      var m' := m[last := m[last].(next := b.at)];
      assert m'[b.at := m'[b.at].(prev := last)] == linked;
    }
  }

  lemma CountersAppend(blocks: seq<Block>, b: Block, bet: nat)
    ensures InUse(blocks + [b]) == InUse(blocks) + Sizes(b.items)
    ensures Allocated(blocks + [b]) == Allocated(blocks) + b.Size()
    ensures IsBlock(blocks, bet) ==> IsBlock(blocks + [b], bet)
  {
    TotalsConcat(blocks, [b]);
    TotalsOfOne(b);
    if IsBlock(blocks, bet) {
      assert (blocks + [b])[IndexOf(blocks, bet)].at == bet;
    }
  }
}
