/** The memory map, and the pages it stands for. */
module MemoryMap {
  import opened Machine

  const PHYSICAL_LIMIT: nat := 0x10_0000_0000_0000

  datatype Kind = Usable | BootloaderReclaimable | Reserved

  datatype Entry = Entry(base: nat, length: nat, kind: Kind) {
    predicate Covers(a: nat) { base <= a < base + length }
  }

  function DivRoundUp(x: nat, y: nat): nat
    requires y > 0
  {
    (x + (y - 1)) / y
  }

  function AlignUp(x: nat): nat
  {
    DivRoundUp(x, PAGE_SIZE) * PAGE_SIZE
  }

  /** Pages of one entry, in order. */
  function EntryPages(e: Entry): (ps: seq<nat>)
    ensures |ps| == DivRoundUp(e.length, PAGE_SIZE)
    ensures forall k :: 0 <= k < |ps| ==> ps[k] == e.base + k * PAGE_SIZE
  {
    seq(DivRoundUp(e.length, PAGE_SIZE), k => e.base + k * PAGE_SIZE)
  }

  /** Pages of all usable entries, in order. */
  function UsablePages(m: seq<Entry>): seq<nat>
  {
    if m == [] then []
    else UsablePages(m[..|m| - 1]) + if m[|m| - 1].kind == Usable then EntryPages(m[|m| - 1]) else []
  }

  /** What the scan over the entries accepts. */
  predicate Accepts(e: Entry, reclaimed: bool, a: nat)
  {
    (e.kind == Usable || (e.kind == BootloaderReclaimable && reclaimed)) && e.Covers(a)
  }

  ghost predicate InMap(m: seq<Entry>, reclaimed: bool, a: nat)
  {
    exists i :: 0 <= i < |m| && Accepts(m[i], reclaimed, a)
  }

  /** Which addresses the scan accepts: those of usable entries, and of the boot loader's once they are reclaimed. */
  lemma InMapIs(m: seq<Entry>, reclaimed: bool, a: nat)
    ensures InMap(m, reclaimed, a) <==> exists e ::
      e in m && e.base <= a < e.base + e.length && (e.kind == Usable || (reclaimed && e.kind == BootloaderReclaimable))
  {
    if InMap(m, reclaimed, a) {
      var i :| 0 <= i < |m| && Accepts(m[i], reclaimed, a);
      assert m[i] in m;
    }
    if e :| e in m && e.base <= a < e.base + e.length && (e.kind == Usable || (reclaimed && e.kind == BootloaderReclaimable)) {
      var i :| 0 <= i < |m| && m[i] == e;
      assert Accepts(m[i], reclaimed, a);
    }
  }

  /** Page `p` is the k-th of entry `e`, and begins inside it. */
  ghost predicate KthPage(e: Entry, k: nat, p: nat)
  {
    e.kind == Usable && 4096 * k < e.length && p == e.base + 4096 * k
  }

  lemma EntryPagesAre(e: Entry, p: nat)
    requires e.kind == Usable
    ensures p in EntryPages(e) <==> exists k :: KthPage(e, k, p)
  {
    var ps := EntryPages(e);
    if p in ps {
      var k :| 0 <= k < |ps| && ps[k] == p;
      assert KthPage(e, k, p);
    }
    if k: nat :| KthPage(e, k, p) {
      assert ps[k] == p;
    }
  }

  /** The usable pages are those that begin in a usable entry, counted from its base in steps of 4096. */
  lemma {:induction false} UsablePagesAre(m: seq<Entry>, p: nat)
    ensures p in UsablePages(m) <==> exists i, k :: 0 <= i < |m| && KthPage(m[i], k, p)
  {
    if m != [] {
      var front, last := m[..|m| - 1], m[|m| - 1];
      UsablePagesAre(front, p);
      if last.kind == Usable {
        EntryPagesAre(last, p);
      }
      if p in UsablePages(front) {
        var i, k :| 0 <= i < |front| && KthPage(front[i], k, p);
        assert KthPage(m[i], k, p);
      } else if p in UsablePages(m) {
        var k :| KthPage(last, k, p);
        assert KthPage(m[|m| - 1], k, p);
      }
      if i, k :| 0 <= i < |m| && KthPage(m[i], k, p) {
        assert i < |front| ==> KthPage(front[i], k, p);
      }
    }
  }

  /** Usable entries are whole pages, do not overlap, leave page 0 alone and stay below 2^52. */
  ghost predicate MapOk(m: seq<Entry>)
  {
    && (forall i {:trigger EntryOk(m[i])} :: 0 <= i < |m| ==> EntryOk(m[i]))
    && (forall i, j {:trigger Disjoint(m[i], m[j])} :: 0 <= i < j < |m| ==> Disjoint(m[i], m[j]))
  }

  ghost predicate EntryOk(e: Entry)
  {
    e.kind == Usable ==> e.base % PAGE_SIZE == 0 && e.length % PAGE_SIZE == 0 && 0 < e.base && e.base + e.length <= PHYSICAL_LIMIT
  }

  ghost predicate Disjoint(e: Entry, f: Entry)
  {
    e.kind == Usable && f.kind == Usable ==> e.base + e.length <= f.base || f.base + f.length <= e.base
  }

  ghost predicate NoRepeats(s: seq<nat>)
  {
    forall i, j {:trigger Differ(s, i, j)} :: 0 <= i < j < |s| ==> Differ(s, i, j)
  }

  ghost predicate Differ(s: seq<nat>, i: int, j: int)
  {
    0 <= i < j < |s| ==> s[i] != s[j]
  }

  // ---------- Pages of a map ----------

  /** Every page is a whole page inside its usable entry. */
  ghost predicate PageOf(m: seq<Entry>, i: int, p: nat)
  {
    0 <= i < |m| && m[i].kind == Usable && p % PAGE_SIZE == 0 && m[i].base <= p && p + PAGE_SIZE <= m[i].base + m[i].length
  }

  lemma EntryPagesInside(e: Entry, k: nat)
    requires e.kind == Usable && EntryOk(e) && k < |EntryPages(e)|
    ensures var p := EntryPages(e)[k]; p % PAGE_SIZE == 0 && e.base <= p && p + PAGE_SIZE <= e.base + e.length
  {
    assert e.length == PAGE_SIZE * DivRoundUp(e.length, PAGE_SIZE);
  }

  lemma {:induction false} UsablePagesInside(m: seq<Entry>, k: nat) returns (i: nat)
    requires MapOk(m) && k < |UsablePages(m)|
    ensures PageOf(m, i, UsablePages(m)[k])
  {
    var n := |m| - 1;
    var front := m[..n];
    FrontOk(m);
    if k < |UsablePages(front)| {
      i := UsablePagesInside(front, k);
    } else {
      i := n;
      assert EntryOk(m[n]);
      EntryPagesInside(m[n], k - |UsablePages(front)|);
    }
  }

  lemma FrontOk(m: seq<Entry>)
    requires MapOk(m) && m != []
    ensures MapOk(m[..|m| - 1])
  {
    var front := m[..|m| - 1];
    forall i | 0 <= i < |front| ensures EntryOk(front[i]) { assert EntryOk(m[i]); }
    forall i, j | 0 <= i < j < |front| ensures Disjoint(front[i], front[j]) { assert Disjoint(m[i], m[j]); }
  }

  /** No page is listed twice. */
  lemma {:induction false} UsablePagesDistinct(m: seq<Entry>)
    requires MapOk(m)
    ensures NoRepeats(UsablePages(m))
  {
    if m != [] {
      var n := |m| - 1;
      var front := m[..n];
      FrontOk(m);
      UsablePagesDistinct(front);
      var a := UsablePages(front);
      forall i, j | 0 <= i < j < |UsablePages(m)|
        ensures Differ(UsablePages(m), i, j)
      {
        if j < |a| {
          assert Differ(a, i, j);
        } else if i < |a| {
          var k := UsablePagesInside(front, i);
          assert EntryOk(m[n]);
          EntryPagesInside(m[n], j - |a|);
          assert Disjoint(m[k], m[n]);
        }
      }
    }
  }

  /** A listed page is one the scan accepts. */
  lemma UsablePagesInMap(m: seq<Entry>, reclaimed: bool, k: nat)
    requires MapOk(m) && k < |UsablePages(m)|
    ensures var p := UsablePages(m)[k]; InMap(m, reclaimed, p) && 0 < p < PHYSICAL_LIMIT && p % PAGE_SIZE == 0
  {
    var i := UsablePagesInside(m, k);
    assert EntryOk(m[i]) && Accepts(m[i], reclaimed, UsablePages(m)[k]);
  }

  // ---------- Carving out the stack array ----------

  function Carve(m: seq<Entry>, c: nat, size: nat): seq<Entry>
    requires c < |m| && size <= m[c].length
  {
    m[c := m[c].(base := m[c].base + size, length := m[c].length - size)]
  }

  lemma CarveKeepsMapOk(m: seq<Entry>, c: nat, size: nat)
    requires MapOk(m) && c < |m| && m[c].kind == Usable && size <= m[c].length && size % PAGE_SIZE == 0
    ensures MapOk(Carve(m, c, size))
  {
    var r := Carve(m, c, size);
    forall i | 0 <= i < |r| ensures EntryOk(r[i]) { assert EntryOk(m[i]); }
    forall i, j | 0 <= i < j < |r| ensures Disjoint(r[i], r[j]) { assert Disjoint(m[i], m[j]); }
  }

  /** Carving takes as many pages off the list as it takes room. */
  lemma {:induction false} CarveTakesPages(m: seq<Entry>, c: nat, size: nat)
    requires MapOk(m) && c < |m| && m[c].kind == Usable && size <= m[c].length && size % PAGE_SIZE == 0
    ensures |UsablePages(Carve(m, c, size))| + size / PAGE_SIZE == |UsablePages(m)|
    decreases |m|
  {
    var n := |m| - 1;
    var r := Carve(m, c, size);
    FrontOk(m);
    if c < n {
      CarveTakesPages(m[..n], c, size);
      assert r[..n] == Carve(m[..n], c, size);
    } else {
      assert r[..n] == m[..n];
      assert EntryOk(m[c]);
      PagesLeft(m[c].length, size);
    }
  }

  lemma PagesLeft(length: nat, size: nat)
    requires size <= length && length % PAGE_SIZE == 0 && size % PAGE_SIZE == 0
    ensures DivRoundUp(length - size, PAGE_SIZE) + size / PAGE_SIZE == DivRoundUp(length, PAGE_SIZE)
  {
  }

  /** No page handed out overlaps the carved array. */
  lemma PagesOutsideArray(m: seq<Entry>, c: nat, size: nat, k: nat)
    requires MapOk(m) && c < |m| && m[c].kind == Usable && size <= m[c].length && size % PAGE_SIZE == 0
    requires k < |UsablePages(Carve(m, c, size))|
    ensures var p := UsablePages(Carve(m, c, size))[k]; p + PAGE_SIZE <= m[c].base || m[c].base + size <= p
  {
    CarveKeepsMapOk(m, c, size);
    var i := UsablePagesInside(Carve(m, c, size), k);
    if i < c {
      assert Disjoint(m[i], m[c]);
    } else if c < i {
      assert Disjoint(m[c], m[i]);
    }
  }
}

/** The cache of page addresses known to be valid. */
module PageCache {
  import opened Machine
  import opened MemoryMap

  const CACHE_SIZE: nat := 128

  datatype Slot = Slot(addr: nat, valid: bool, accesses: nat)

  /** Exclusive or, bit by bit. */
  function Xor(a: nat, b: nat): nat
  {
    if a == 0 && b == 0 then 0 else (a + b) % 2 + 2 * Xor(a / 2, b / 2)
  }

  /** Bit `k` of the exclusive or is set if it is set in exactly one of the two. */
  lemma {:induction false} XorBits(a: nat, b: nat, k: nat)
    ensures Bit(Xor(a, b), k) == (Bit(a, k) + Bit(b, k)) % 2
    decreases k
  {
    XorHalf(a, b);
    if k == 0 {
      LowBit(a, b);
    } else {
      XorBits(a / 2, b / 2, k - 1);
    }
  }

  lemma LowBit(a: nat, b: nat)
    ensures Xor(a, b) % 2 == (a % 2 + b % 2) % 2
  {
    if a != 0 || b != 0 {
      AddEven((a + b) % 2, Xor(a / 2, b / 2));
      SumParity(a, b);
    }
  }

  lemma AddEven(r: nat, x: nat)
    requires r < 2
    ensures (r + 2 * x) % 2 == r
  {
  }

  lemma SumParity(a: nat, b: nat)
    ensures (a + b) % 2 == (a % 2 + b % 2) % 2
  {
  }

  function Bit(a: nat, k: nat): nat
    decreases k
  {
    if k == 0 then a % 2 else Bit(a / 2, k - 1)
  }

  lemma XorHalf(a: nat, b: nat)
    ensures Xor(a, b) / 2 == Xor(a / 2, b / 2)
  {
  }

  /** hash_page: two multiplicative rounds on 64 bits, then the low seven bits of a last one. */
  function HashPage(addr: nat): (k: nat)
    ensures k < CACHE_SIZE
  {
    var a := Xor(addr, addr / 0x4000_0000) * 0x9e3779b97f4a7c15 % U64;
    var b := Xor(a, a / 0x800_0000) * 0x7f4a7c159e3779b9 % U64;
    Xor(b, b / 0x8000_0000) % CACHE_SIZE
  }

  /** Each round folds the high bits in and multiplies by its prime in 64 bits; the last fold is taken modulo 128. */
  lemma HashRounds(addr: nat, a: nat, b: nat)
    requires a == Xor(addr, addr / 0x4000_0000) * 0x9E37_79B9_7F4A_7C15 % 0x1_0000_0000_0000_0000
    requires b == Xor(a, a / 0x800_0000) * 0x7F4A_7C15_9E37_79B9 % 0x1_0000_0000_0000_0000
    ensures HashPage(addr) == Xor(b, b / 0x8000_0000) % 128
  {
  }

  predicate Hit(cache: seq<Slot>, a: nat)
    requires |cache| == CACHE_SIZE
  {
    cache[HashPage(a)].valid && cache[HashPage(a)].addr == a
  }

  /** A hit counts as one more access. */
  function Touched(cache: seq<Slot>, a: nat): (r: seq<Slot>)
    requires |cache| == CACHE_SIZE
    ensures |r| == |cache|
    ensures forall k :: 0 <= k < |r| ==> r[k].addr == cache[k].addr && r[k].valid == cache[k].valid
    ensures forall k :: 0 <= k < |r| ==> r[k].accesses == cache[k].accesses + if k == HashPage(a) && cache[k].valid && cache[k].addr == a then 1 else 0
  {
    if Hit(cache, a) then cache[HashPage(a) := Slot(a, true, cache[HashPage(a)].accesses + 1)] else cache
  }

  /** What is_page_valid answers. */
  ghost predicate Answers(cache: seq<Slot>, m: seq<Entry>, reclaimed: bool, a: nat)
    requires |cache| == CACHE_SIZE
  {
    Hit(cache, a) || InMap(m, reclaimed, a)
  }

  /** A slot is honest if looking in it never accepts an address outside the map. */
  ghost predicate SlotHonest(s: Slot, k: nat, m: seq<Entry>, reclaimed: bool)
  {
    s.valid && HashPage(s.addr) == k ==> InMap(m, reclaimed, s.addr)
  }

  ghost predicate Honest(cache: seq<Slot>, m: seq<Entry>, reclaimed: bool)
  {
    forall k :: 0 <= k < |cache| ==> SlotHonest(cache[k], k, m, reclaimed)
  }

  /** The cached answer is the plain scan's answer for every address exactly when every slot is honest. */
  lemma AgreesIffHonest(cache: seq<Slot>, m: seq<Entry>, reclaimed: bool)
    requires |cache| == CACHE_SIZE
    ensures Honest(cache, m, reclaimed) <==> forall a :: Answers(cache, m, reclaimed, a) <==> InMap(m, reclaimed, a)
  {
    if Honest(cache, m, reclaimed) {
      forall a: nat
        ensures Answers(cache, m, reclaimed, a) <==> InMap(m, reclaimed, a)
      {
        assert SlotHonest(cache[HashPage(a)], HashPage(a), m, reclaimed);
      }
    } else {
      var k :| 0 <= k < CACHE_SIZE && !SlotHonest(cache[k], k, m, reclaimed);
      assert Answers(cache, m, reclaimed, cache[k].addr);
    }
  }

  /** Entering an address of the map in its slot keeps the cache honest, whatever it evicts. */
  lemma EvictionKeepsHonest(cache: seq<Slot>, m: seq<Entry>, reclaimed: bool, a: nat)
    requires |cache| == CACHE_SIZE && Honest(cache, m, reclaimed) && InMap(m, reclaimed, a)
    ensures Honest(cache[HashPage(a) := Slot(a, true, 0)], m, reclaimed)
  {
    var after := cache[HashPage(a) := Slot(a, true, 0)];
    forall k | 0 <= k < |after|
      ensures SlotHonest(after[k], k, m, reclaimed)
    {
      assert SlotHonest(cache[k], k, m, reclaimed);
    }
  }

  lemma NextHead(head: nat)
    ensures (head + 1) % CACHE_SIZE == if head % 128 == 127 then 0 else head % 128 + 1
  {
  }

  // ---------- The initial fill ----------

  function PageAt(base: nat, j: nat): nat
  {
    base + j * PAGE_SIZE
  }

  /** Slot `j` gets the j-th page behind the carved array, whatever it hashes to. */
  ghost predicate Filled(cache: seq<Slot>, base: nat, count: nat)
  {
    && |cache| == CACHE_SIZE && count <= CACHE_SIZE
    && (forall j :: 0 <= j < count ==> cache[j] == Slot(PageAt(base, j), true, 0))
    && (forall j :: count <= j < CACHE_SIZE ==> !cache[j].valid)
  }

  ghost predicate PageHonest(m: seq<Entry>, p: nat, j: nat)
  {
    HashPage(p) == j ==> InMap(m, false, p)
  }

  /** Whether the fill is honest can be told from the memory map before it. */
  ghost predicate FillHonest(m: seq<Entry>, base: nat, count: nat)
  {
    forall j :: 0 <= j < count ==> PageHonest(m, PageAt(base, j), j)
  }

  lemma FilledIsHonestIff(cache: seq<Slot>, m: seq<Entry>, base: nat, count: nat)
    requires Filled(cache, base, count)
    ensures Honest(cache, m, false) <==> FillHonest(m, base, count)
  {
    if FillHonest(m, base, count) {
      forall k | 0 <= k < CACHE_SIZE
        ensures SlotHonest(cache[k], k, m, false)
      {
        assert k < count ==> PageHonest(m, PageAt(base, k), k);
      }
    }
    if Honest(cache, m, false) {
      forall j | 0 <= j < count
        ensures PageHonest(m, PageAt(base, j), j)
      {
        assert SlotHonest(cache[j], j, m, false);
      }
    }
  }

  /** An entry that still holds every page filled in makes the fill honest. */
  lemma LongEntryIsHonest(m: seq<Entry>, c: nat, count: nat)
    requires c < |m| && m[c].kind == Usable && count * PAGE_SIZE <= m[c].length
    ensures FillHonest(m, m[c].base, count)
  {
    forall j | 0 <= j < count
      ensures PageHonest(m, PageAt(m[c].base, j), j)
    {
      assert Accepts(m[c], false, PageAt(m[c].base, j));
    }
  }

  lemma DishonestAt(m: seq<Entry>, base: nat, count: nat, p: nat, j: nat)
    requires j < count && p == PageAt(base, j) && HashPage(p) == j && !InMap(m, false, p)
    ensures !FillHonest(m, base, count)
  {
    assert !PageHonest(m, p, j);
  }
}

/** What is known about the free and the held pages. */
module PagePool {
  import opened Machine
  import opened MemoryMap
  import opened PageCache

  function Min(a: nat, b: nat): (r: nat)
    ensures r <= a && r <= b && (r == a || r == b)
  {
    if a < b then a else b
  }

  /** Pages needed for the stack array are set aside first. */
  function ArraySize(m: seq<Entry>): nat
  {
    AlignUp(|UsablePages(m)| * 8)
  }

  /** The least whole number of pages that holds eight bytes for every usable page. */
  lemma ArraySizeIs(m: seq<Entry>)
    ensures ArraySize(m) % 4096 == 0 && 8 * |UsablePages(m)| <= ArraySize(m) < 8 * |UsablePages(m)| + 4096
  {
  }

  predicate Roomy(e: Entry, size: nat)
  {
    e.length >= size && e.kind == Usable
  }

  /** The first usable entry with room for the array. */
  ghost predicate IsCarved(m: seq<Entry>, c: nat)
  {
    c < |m| && Roomy(m[c], ArraySize(m)) && forall i :: 0 <= i < c ==> !Roomy(m[i], ArraySize(m))
  }

  /** A page the allocator may hand out: aligned, in the map, not page 0, and clear of the array. */
  ghost predicate GoodPage(m: seq<Entry>, arrayBase: nat, arraySize: nat, p: nat)
  {
    && p % PAGE_SIZE == 0 && 0 < p < PHYSICAL_LIMIT && InMap(m, false, p)
    && (p + PAGE_SIZE <= arrayBase || arrayBase + arraySize <= p)
  }

  ghost predicate AllGood(m: seq<Entry>, arrayBase: nat, arraySize: nat, ps: set<nat>)
  {
    forall p {:trigger GoodPage(m, arrayBase, arraySize, p)} :: p in ps ==> GoodPage(m, arrayBase, arraySize, p)
  }

  lemma GoodPageFacts(m: seq<Entry>, arrayBase: nat, arraySize: nat, ps: set<nat>, p: nat)
    requires AllGood(m, arrayBase, arraySize, ps) && p in ps
    ensures 0 < p < PHYSICAL_LIMIT && p % PAGE_SIZE == 0 && AlignUp(p) == p && InMap(m, false, p)
  {
    assert GoodPage(m, arrayBase, arraySize, p);
    AlignedStays(p);
  }

  lemma HeldPageFacts(m: seq<Entry>, arrayBase: nat, arraySize: nat, ps: set<nat>, held: set<nat>, p: nat)
    requires AllGood(m, arrayBase, arraySize, ps) && held <= ps
    ensures p in held ==> p != 0 && InMap(m, false, p)
  {
    if p in held {
      GoodPageFacts(m, arrayBase, arraySize, ps, p);
    }
  }

  /** Only access counts may differ. */
  ghost predicate SameSlots(a: seq<Slot>, b: seq<Slot>)
  {
    |a| == |b| && forall k :: 0 <= k < |a| ==> a[k].addr == b[k].addr && a[k].valid == b[k].valid
  }

  lemma CountsDoNotMatter(a: seq<Slot>, b: seq<Slot>, m: seq<Entry>)
    requires SameSlots(a, b) && Honest(a, m, false)
    ensures Honest(b, m, false)
  {
    forall k | 0 <= k < |b|
      ensures SlotHonest(b[k], k, m, false)
    {
      assert SlotHonest(a[k], k, m, false);
    }
  }

  function OrNull(ok: bool, p: nat): nat
  {
    if ok then p else 0
  }

  lemma AlignedStays(p: nat)
    requires p % PAGE_SIZE == 0
    ensures AlignUp(p) == p
  {
  }

  ghost predicate IsFree(free: seq<nat>, held: set<nat>, initial: set<nat>, k: int)
  {
    0 <= k < |free| ==> free[k] in initial && free[k] !in held
  }

  ghost predicate Somewhere(free: seq<nat>, held: set<nat>, p: nat)
  {
    p in held || p in free
  }

  /** Free and held pages together are exactly the pages first pushed, each once. */
  ghost predicate Partition(free: seq<nat>, held: set<nat>, initial: set<nat>)
  {
    && NoRepeats(free) && held <= initial && |free| + |held| == |initial|
    && (forall k {:trigger IsFree(free, held, initial, k)} :: 0 <= k < |free| ==> IsFree(free, held, initial, k))
    && (forall p {:trigger Somewhere(free, held, p)} :: p in initial ==> Somewhere(free, held, p))
  }

  lemma TakingKeepsPartition(free: seq<nat>, held: set<nat>, initial: set<nat>)
    requires Partition(free, held, initial) && free != []
    ensures var p := free[|free| - 1]; p in initial && p !in held && Partition(free[..|free| - 1], held + {p}, initial)
  {
    var n := |free| - 1;
    var front, p := free[..n], free[n];
    assert IsFree(free, held, initial, n);
    forall i, j | 0 <= i < j < n
      ensures Differ(front, i, j)
    {
      assert Differ(free, i, j);
    }
    forall k | 0 <= k < n
      ensures IsFree(front, held + {p}, initial, k)
    {
      assert Differ(free, k, n) && IsFree(free, held, initial, k);
    }
    forall q | q in initial
      ensures Somewhere(front, held + {p}, q)
    {
      assert Somewhere(free, held, q);
      if q !in held && q != p {
        var k :| 0 <= k < |free| && free[k] == q;
        assert front[k] == q;
      }
    }
  }

  lemma PuttingBackKeepsPartition(free: seq<nat>, held: set<nat>, initial: set<nat>, p: nat)
    requires Partition(free, held, initial) && p in held
    ensures |free| < |initial| && Partition(free + [p], held - {p}, initial)
  {
    var more := free + [p];
    assert |held| > 0;
    forall k | 0 <= k < |more|
      ensures IsFree(more, held - {p}, initial, k)
    {
      assert k < |free| ==> IsFree(free, held, initial, k);
    }
    forall i, j | 0 <= i < j < |more|
      ensures Differ(more, i, j)
    {
      assert j < |free| ==> Differ(free, i, j);
      assert IsFree(free, held, initial, i);
    }
    forall q | q in initial
      ensures Somewhere(more, held - {p}, q)
    {
      assert Somewhere(free, held, q);
      assert more[|free|] == p;
    }
  }

  lemma AllFree(free: seq<nat>)
    requires NoRepeats(free)
    ensures Partition(free, {}, ToSet(free)) && |ToSet(free)| == |free|
  {
    DistinctCount(free);
    forall k | 0 <= k < |free|
      ensures IsFree(free, {}, ToSet(free), k)
    {
    }
    forall p | p in ToSet(free)
      ensures Somewhere(free, {}, p)
    {
    }
  }

  ghost function ToSet(ps: seq<nat>): set<nat>
  {
    set p | p in ps
  }
  lemma ArrayIsPages(n: nat)
    ensures AlignUp(n * 8) % PAGE_SIZE == 0 && AlignUp(n * 8) % 8 == 0 && n <= AlignUp(n * 8) / 8
  {
  }

  lemma {:induction false} PrefixIsShorter(m: seq<Entry>, i: nat)
    requires i <= |m|
    ensures |UsablePages(m[..i])| <= |UsablePages(m)|
    decreases |m|
  {
    if i < |m| {
      PrefixIsShorter(m[..|m| - 1], i);
      assert m[..|m| - 1][..i] == m[..i];
    } else {
      assert m[..i] == m;
    }
  }

  /** What pmm_init starts from once the array is carved out. */
  lemma CarvedPages(m: seq<Entry>, c: nat)
    requires MapOk(m) && IsCarved(m, c)
    ensures var carved := Carve(m, c, ArraySize(m));
      && MapOk(carved)
      && |UsablePages(carved)| <= ArraySize(m) / 8
      && NoRepeats(UsablePages(carved))
      && AllGood(carved, m[c].base, ArraySize(m), ToSet(UsablePages(carved)))
  {
    ArrayIsPages(|UsablePages(m)|);
    CarveKeepsMapOk(m, c, ArraySize(m));
    CarveTakesPages(m, c, ArraySize(m));
    FreshlyPushed(m, c, UsablePages(Carve(m, c, ArraySize(m))));
  }

  /** The pages first pushed are good, distinct, and as many as the list is long. */
  lemma FreshlyPushed(m: seq<Entry>, c: nat, ps: seq<nat>)
    requires MapOk(m) && IsCarved(m, c) && ArraySize(m) % PAGE_SIZE == 0
    requires ps == UsablePages(Carve(m, c, ArraySize(m)))
    ensures NoRepeats(ps)
    ensures AllGood(Carve(m, c, ArraySize(m)), m[c].base, ArraySize(m), ToSet(ps))
  {
    var carved := Carve(m, c, ArraySize(m));
    CarveKeepsMapOk(m, c, ArraySize(m));
    UsablePagesDistinct(carved);
    forall p | p in ToSet(ps)
      ensures GoodPage(carved, m[c].base, ArraySize(m), p)
    {
      var k :| 0 <= k < |ps| && ps[k] == p;
      UsablePagesInMap(carved, false, k);
      PagesOutsideArray(m, c, ArraySize(m), k);
    }
  }

  lemma {:induction false} DistinctCount(ps: seq<nat>)
    requires NoRepeats(ps)
    ensures |ToSet(ps)| == |ps|
  {
    if ps != [] {
      var n := |ps| - 1;
      var front, last := ps[..n], ps[n];
      forall i, j | 0 <= i < j < n
        ensures Differ(front, i, j)
      {
        assert Differ(ps, i, j);
      }
      DistinctCount(front);
      assert ps == front + [last];
      assert ToSet(ps) == ToSet(front) + {last};
      forall k | 0 <= k < n
        ensures front[k] != last
      {
        assert Differ(ps, k, n);
      }
      assert last !in ToSet(front);
    }
  }

  /** Two usable entries: five pages that end at `base`, and 2048 pages further up. */
  function TightMap(base: nat): seq<Entry>
    requires 0x5000 < base
  {
    [Entry(base - 0x5000, 0x5000, Usable), Entry(0x1000_0000, 0x80_0000, Usable)]
  }

  lemma TightMapPages(base: nat)
    requires 0x5000 < base
    ensures |UsablePages(TightMap(base))| == 2053
  {
    var m := TightMap(base);
    assert m[..1][..0] == [];
    assert |UsablePages(m[..1])| == 5;
  }

  lemma TightMapIsOk(base: nat)
    requires 0x5000 < base <= 0x1000_0000 && base % PAGE_SIZE == 0
    ensures MapOk(TightMap(base)) && ArraySize(TightMap(base)) == 0x5000 && IsCarved(TightMap(base), 0)
  {
    TightMapPages(base);
  }

  lemma OutsideTightMap(base: nat, p: nat)
    requires 0x5000 < base <= p < 0x1000_0000
    ensures !InMap(Carve(TightMap(base), 0, 0x5000), false, p)
  {
  }

  /** Page `p` of the fill goes to slot `k` and lies in no entry. */
  ghost predicate StrayFill(m: seq<Entry>, p: nat, k: nat)
  {
    && MapOk(m) && IsCarved(m, 0) && k < Min(CACHE_SIZE, |UsablePages(m)|)
    && var carved := Carve(m, 0, ArraySize(m));
    && p == PageAt(carved[0].base, k) && !InMap(carved, false, p)
  }

  lemma TightMapStrays(base: nat, p: nat, k: nat)
    requires base % PAGE_SIZE == 0 && 0x5000 < base && p == PageAt(base, k) && p < 0x1000_0000 && k < CACHE_SIZE
    ensures StrayFill(TightMap(base), p, k)
  {
    TightMapIsOk(base);
    TightMapPages(base);
    OutsideTightMap(base, p);
  }

  /**
    The fill can be dishonest: for any page `p` the array can use up the first entry so that
    `p`, which lies in no entry, is filled into the slot it hashes to.
   */
  lemma ShortEntryIsDishonest(p: nat) returns (m: seq<Entry>)
    requires 0x10_0000 <= p < 0x1000_0000 && p % PAGE_SIZE == 0
    ensures MapOk(m) && IsCarved(m, 0) && StrayFill(m, p, HashPage(p))
    ensures var carved := Carve(m, 0, ArraySize(m));
      !FillHonest(carved, carved[0].base, Min(CACHE_SIZE, |UsablePages(m)|))
  {
    var base := BaseFor(p, HashPage(p));
    m := TightMap(base);
    TightMapStrays(base, p, HashPage(p));
    var carved := Carve(m, 0, ArraySize(m));
    DishonestAt(carved, carved[0].base, Min(CACHE_SIZE, |UsablePages(m)|), p, HashPage(p));
  }

  lemma BaseFor(p: nat, k: nat) returns (base: nat)
    requires 0x10_0000 <= p && p % PAGE_SIZE == 0 && k < CACHE_SIZE
    ensures base % PAGE_SIZE == 0 && 0x5000 < base && p == PageAt(base, k)
  {
    base := p - k * PAGE_SIZE;
  }
}

/** The physical page allocator: a stack of free pages in carved-out memory. */
module Pmm {
  import opened Machine
  import opened MemoryMap
  import opened PageCache
  import opened PagePool
  import opened PhysicalMemory

  class Allocator {
    var memmap: seq<Entry>
    var pages: array<nat>
    var idx: nat
    var max: nat
    const cache: array<Slot>
    var cacheHead: nat
    const mem: Memory

    // Where the array lies, the stack of free pages, the pages first pushed, and those handed out.
    ghost var arrayBase: nat
    ghost var free: seq<nat>
    ghost var initial: set<nat>
    ghost var held: set<nat>

    ghost predicate Valid()
      reads this, pages, cache
    {
      && MapOk(memmap)
      && cache.Length == CACHE_SIZE
      && idx <= max <= pages.Length
      && pages[..idx] == free && max == |initial| && Partition(free, held, initial)
      && AllGood(memmap, arrayBase, 8 * pages.Length, initial)
    }

    ghost predicate CacheHonest()
      reads this, cache
    {
      Honest(cache[..], memmap, false)
    }

    /** Before pmm_init: nothing free, nothing cached. */
    constructor ()
      ensures Blank() && fresh(cache) && fresh(pages) && fresh(mem)
    {
      memmap := [];
      pages := new nat[0];
      cache := new Slot[CACHE_SIZE](_ => Slot(0, false, 0));
      mem := new Memory();
      idx, max, cacheHead, arrayBase, free, initial, held := 0, 0, 0, 0, [], {}, {};
    }

    ghost predicate Blank()
      reads this, cache
    {
      idx == 0 && held == {} && cache.Length == CACHE_SIZE && forall k :: 0 <= k < CACHE_SIZE ==> !cache[k].valid
    }

    /** The first usable entry with room for the array; the memory map has one. */
    method FindRoom(arraySize: nat, ghost c: nat) returns (i: nat)
      requires c < |memmap| && Roomy(memmap[c], arraySize) && forall k :: 0 <= k < c ==> !Roomy(memmap[k], arraySize)
      ensures i == c
    {
      i := 0;
      while !Roomy(memmap[i], arraySize)
        invariant 0 <= i <= c
        decreases c - i
      {
        i := i + 1;
      }
    }

    /** Counts the pages and takes the array off the front of the first usable entry with room for it. */
    method CarveArray(m: seq<Entry>, ghost c: nat) returns (freePages: nat, i: nat)
      requires IsCarved(m, c)
      modifies `memmap, `pages, `arrayBase
      ensures freePages == |UsablePages(m)| && i == c
      ensures memmap == Carve(m, c, ArraySize(m)) && arrayBase == m[c].base
      ensures fresh(pages) && 8 * pages.Length == ArraySize(m)
    {
      memmap := m;
      freePages := CountPages(m);
      var arraySize := AlignUp(freePages * 8);
      ArrayIsPages(freePages);
      i := FindRoom(arraySize, c);
      arrayBase := memmap[i].base;
      pages := new nat[arraySize / 8];
      memmap := memmap[i := memmap[i].(base := memmap[i].base + arraySize, length := memmap[i].length - arraySize)];
    }

    /**
      pmm_init.  The array goes to the front of the first usable entry with room for it;
      all other whole pages are pushed, and the first pages behind the array are entered
      in the cache by position.
     */
    method Init(m: seq<Entry>, ghost c: nat)
      requires Blank() && MapOk(m) && IsCarved(m, c)
      modifies this, cache
      ensures Valid() && held == {} && fresh(pages)
      ensures memmap == Carve(m, c, ArraySize(m)) && free == UsablePages(memmap)
      ensures arrayBase == m[c].base && 8 * pages.Length == ArraySize(m)
      ensures CacheHonest() <==> FillHonest(memmap, memmap[c].base, Min(CACHE_SIZE, |UsablePages(m)|))
    {
      CarvedPages(m, c);
      CarveAndFill(m, c);
      free := UsablePages(memmap);
      AllFree(free);
      PushPages();
      max := idx;
      initial := ToSet(free);
    }

    method CarveAndFill(m: seq<Entry>, ghost c: nat)
      requires Blank() && IsCarved(m, c)
      modifies `memmap, `pages, `arrayBase, cache
      ensures memmap == Carve(m, c, ArraySize(m)) && arrayBase == m[c].base
      ensures fresh(pages) && 8 * pages.Length == ArraySize(m)
      ensures CacheHonest() <==> FillHonest(memmap, memmap[c].base, Min(CACHE_SIZE, |UsablePages(m)|))
    {
      var freePages, i := CarveArray(m, c);
      FillCache(memmap[i].base, freePages);
      FilledIsHonestIff(cache[..], memmap, memmap[i].base, Min(CACHE_SIZE, freePages));
    }

    /** The first pages behind the array go into the first slots. */
    method FillCache(base: nat, freePages: nat)
      requires cache.Length == CACHE_SIZE && forall k :: 0 <= k < CACHE_SIZE ==> !cache[k].valid
      modifies cache
      ensures Filled(cache[..], base, Min(CACHE_SIZE, freePages))
    {
      var j := 0;
      while j < CACHE_SIZE && j < freePages
        invariant 0 <= j <= Min(CACHE_SIZE, freePages)
        invariant forall k :: 0 <= k < j ==> cache[k] == Slot(PageAt(base, k), true, 0)
        invariant forall k :: j <= k < CACHE_SIZE ==> !cache[k].valid
      {
        cache[j] := Slot(base + j * PAGE_SIZE, true, 0);
        j := j + 1;
      }
    }

    /** Pushes every page of every usable entry. */
    method PushPages()
      requires MapOk(memmap) && idx == 0 && |UsablePages(memmap)| <= pages.Length
      modifies `idx, pages
      ensures idx == |UsablePages(memmap)| && pages[..idx] == UsablePages(memmap)
    {
      var i := 0;
      while i < |memmap|
        invariant 0 <= i <= |memmap|
        invariant idx == |UsablePages(memmap[..i])| <= pages.Length && pages[..idx] == UsablePages(memmap[..i])
      {
        ghost var before := UsablePages(memmap[..i]);
        assert memmap[..i + 1][..i] == memmap[..i];
        PrefixIsShorter(memmap, i + 1);
        if memmap[i].kind == Usable {
          var j := 0;
          ghost var k := 0;
          while j < memmap[i].length
            invariant j == k * PAGE_SIZE && k <= |EntryPages(memmap[i])|
            invariant idx == |before| + k && pages[..idx] == before + EntryPages(memmap[i])[..k]
            invariant |before| + |EntryPages(memmap[i])| <= pages.Length
          {
            pages[idx] := memmap[i].base + j;
            idx := idx + 1;
            assert EntryPages(memmap[i])[..k + 1] == EntryPages(memmap[i])[..k] + [EntryPages(memmap[i])[k]];
            j := j + PAGE_SIZE;
            k := k + 1;
          }
          assert EntryPages(memmap[i])[..k] == EntryPages(memmap[i]);
        }
        i := i + 1;
      }
      assert memmap[..i] == memmap;
    }

    /** is_page_valid: a cache hit, or a scan of the memory map. */
    method IsPageValid(a: nat) returns (valid: bool)
      requires cache.Length == CACHE_SIZE
      modifies cache
      ensures valid == Answers(old(cache[..]), memmap, false, a)
      ensures SameSlots(old(cache[..]), cache[..])
      ensures cache[..] == Touched(old(cache[..]), a)
    {
      var slot := cache[HashPage(a)];
      if slot.valid && slot.addr == a {
        cache[HashPage(a)] := slot.(accesses := slot.accesses + 1);
        return true;
      }
      for i := 0 to |memmap|
        invariant forall k :: 0 <= k < i ==> !Accepts(memmap[k], false, a)
        invariant cache[..] == old(cache[..])
      {
        if Accepts(memmap[i], false, a) {
          return true;
        }
      }
      valid := false;
    }

    /** With an honest cache is_page_valid answers as the plain scan would, and keeps the cache honest. */
    method CheckPage(a: nat) returns (valid: bool)
      requires cache.Length == CACHE_SIZE
      modifies cache
      ensures valid == Answers(old(cache[..]), memmap, false, a)
      ensures old(CacheHonest()) ==> CacheHonest() && valid == InMap(memmap, false, a)
      ensures cache[..] == Touched(old(cache[..]), a)
    {
      valid := IsPageValid(a);
      if old(CacheHonest()) {
        AgreesIffHonest(old(cache[..]), memmap, false);
        CountsDoNotMatter(old(cache[..]), cache[..], memmap);
      }
    }

    /** A released page is entered in its slot, evicting what was there. */
    method EnterSlot(page: nat)
      requires cache.Length == CACHE_SIZE && InMap(memmap, false, page)
      modifies cache, `cacheHead
      ensures cache[..] == old(cache[..])[HashPage(page) := Slot(page, true, 0)]
      ensures old(CacheHonest()) ==> CacheHonest()
      ensures cacheHead == if old(cacheHead) % 128 == 127 then 0 else old(cacheHead) % 128 + 1
    {
      if CacheHonest() {
        EvictionKeepsHonest(cache[..], memmap, false, page);
      }
      ghost var before := cache[..];
      cache[HashPage(page)] := Slot(page, true, 0);
      NextHead(cacheHead);
      cacheHead := (cacheHead + 1) % CACHE_SIZE;
      assert cache[..] == before[HashPage(page) := Slot(page, true, 0)];
    }

    method Pop() returns (addr: nat)
      requires 0 < idx <= pages.Length && pages[..idx] == free
      modifies `idx, `free
      ensures idx == old(idx) - 1 && addr == old(free)[idx] && free == old(free)[..idx] && pages[..idx] == free
    {
      idx := idx - 1;
      addr := pages[idx];
      free := free[..idx];
    }

    method Push(addr: nat)
      requires idx < pages.Length && pages[..idx] == free
      modifies `idx, `free, pages
      ensures idx == old(idx) + 1 && free == old(free) + [addr] && pages[..idx] == free
    {
      pages[idx] := addr;
      idx := idx + 1;
      free := free + [addr];
    }

    /** The page on top of the stack, zeroed; 0 when there is none. */
    method RequestPage() returns (page: nat)
      requires Valid()
      modifies `idx, `free, `held, cache, mem
      ensures Valid()
      ensures old(free) == [] ==> page == 0 && held == old(held) && free == [] && mem.tables == old(mem.tables) && mem.data == old(mem.data)
      ensures old(free) != [] ==>
        && page == old(free)[|old(free)| - 1] && 0 < page < PHYSICAL_LIMIT && page % PAGE_SIZE == 0
        && page in initial && page !in old(held)
        && free == old(free)[..|old(free)| - 1] && held == old(held) + {page}
        && mem.tables == old(mem.tables) - {page} && mem.data == old(mem.data) - {page}
      ensures cache[..] == if page == 0 then old(cache[..]) else Touched(old(cache[..]), page)
      ensures old(CacheHonest()) ==> CacheHonest()
    {
      if idx == 0 {
        return 0;
      }
      TakingKeepsPartition(free, held, initial);
      var addr := Pop();
      GoodPageFacts(memmap, arrayBase, 8 * pages.Length, initial, addr);
      var valid := CheckPage(addr);
      if valid {
        mem.Zero(addr);
      }
      held := held + {addr};
      page := OrNull(valid, AlignUp(addr));
    }

    /** A held page goes back on the stack. */
    method PutBack(page: nat)
      requires Valid() && page in held && InMap(memmap, false, page)
      modifies `idx, `free, `held, `cacheHead, cache, pages
      ensures Valid()
      ensures held == old(held) - {page} && free == old(free) + [page]
      ensures cache[..] == old(cache[..])[HashPage(page) := Slot(page, true, 0)]
      ensures old(CacheHonest()) ==> CacheHonest()
    {
      PuttingBackKeepsPartition(free, held, initial, page);
      EnterSlot(page);
      Push(page);
      held := held - {page};
    }

    /** Puts a page back on the stack; NULL and addresses outside the map are ignored. */
    method ReleasePage(page: nat)
      requires Valid()
      requires page == 0 || page in held || held == {} || (CacheHonest() && !InMap(memmap, false, page))
      modifies `idx, `free, `held, `cacheHead, cache, pages
      ensures Valid()
      ensures page in old(held) ==>
        held == old(held) - {page} && free == old(free) + [page] && cache[..] == old(cache[..])[HashPage(page) := Slot(page, true, 0)]
      ensures page !in old(held) ==> held == old(held) && free == old(free)
      ensures page !in old(held) ==> cache[..] == if page == 0 then old(cache[..]) else Touched(old(cache[..]), page)
      ensures old(CacheHonest()) ==> CacheHonest()
    {
      HeldPageFacts(memmap, arrayBase, 8 * pages.Length, initial, held, page);
      if page == 0 {
        return;
      }
      if page in held {
        PuttingBackKeepsPartition(free, held, initial, page);
      } else {
        AgreesIffHonest(cache[..], memmap, false);
      }
      var valid := CheckPage(page);
      if valid && idx < max {
        PutBack(page);
      }
    }
  }

  method CountPages(m: seq<Entry>) returns (freePages: nat)
    ensures freePages == |UsablePages(m)|
  {
    freePages := 0;
    for i := 0 to |m|
      invariant freePages == |UsablePages(m[..i])|
    {
      assert m[..i + 1][..i] == m[..i];
      if m[i].kind == Usable {
        freePages := freePages + DivRoundUp(m[i].length, PAGE_SIZE);
      }
    }
    assert m[..|m|] == m;
  }
}
