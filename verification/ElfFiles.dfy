/** ELF files as bytes: what the loader reads in them, and files it accepts. */
module ElfFiles {
  import opened Machine
  import opened Sequences
  import opened PhysicalMemory
  import opened ElfImage

  // ---------- Fields ----------

  function Limit(n: nat): nat
  {
    if n == 0 then 1 else 256 * Limit(n - 1)
  }

  lemma Limits()
    ensures Limit(1) == 256 && Limit(2) == 0x1_0000 && Limit(4) == 0x1_0000_0000 && Limit(8) == 0x1_0000_0000_0000_0000
  {
    assert Limit(4) == 0x1_0000_0000;
  }

  /** A number as `n` bytes, the lowest first. */
  function Little(v: nat, n: nat): (b: seq<nat>)
    ensures |b| == n
    decreases n
  {
    if n == 0 then [] else [v % 256] + Little(v / 256, n - 1)
  }

  lemma {:induction false} FieldOfLittle(data: seq<nat>, at: nat, v: nat, n: nat)
    requires at + n <= |data| && data[at..at + n] == Little(v, n) && v < Limit(n)
    ensures Field(data, at, n) == v
    decreases n
  {
    if n > 0 {
      assert data[at] == data[at..at + n][0];
      assert data[at + 1..at + n] == data[at..at + n][1..];
      FieldOfLittle(data, at + 1, v / 256, n - 1);
    }
  }

  lemma FieldStep(data: seq<nat>, at: nat, n: nat)
    requires at + n <= |data| && n > 0
    ensures Field(data, at, n) == data[at] + 256 * Field(data, at + 1, n - 1)
  {
  }

  /** One, two and four bytes, written out. */
  lemma FieldIsSum(data: seq<nat>, at: nat)
    ensures at < |data| ==> Field(data, at, 1) == data[at]
    ensures at + 2 <= |data| ==> Field(data, at, 2) == data[at] + 0x100 * data[at + 1]
    ensures at + 4 <= |data| ==> Field(data, at, 4) == data[at] + 0x100 * data[at + 1] + 0x1_0000 * data[at + 2] + 0x100_0000 * data[at + 3]
  {
    if at + 2 <= |data| {
      FieldStep(data, at, 2);
      FieldStep(data, at + 1, 1);
    }
    if at + 4 <= |data| {
      FieldStep(data, at, 4);
      FieldStep(data, at + 1, 3);
      FieldStep(data, at + 2, 2);
      FieldStep(data, at + 3, 1);
    }
  }

  /** Eight bytes are two fields of four. */
  lemma LongFieldIsSum(data: seq<nat>, at: nat)
    requires at + 8 <= |data|
    ensures Field(data, at, 8) == Field(data, at, 4) + 0x1_0000_0000 * Field(data, at + 4, 4)
  {
    FieldIsSum(data, at);
    FieldStep(data, at, 8);
    FieldStep(data, at + 1, 7);
    FieldStep(data, at + 2, 6);
    FieldStep(data, at + 3, 5);
  }

  /** Only 7F 45 4C 46 02 at the start and 02 00 at byte 16 make a header the loader accepts. */
  lemma GoodHeaderBytes(data: seq<nat>)
    requires |data| >= 64 && forall j :: 0 <= j < 64 ==> data[j] < 256
    ensures GoodHeader(data) <==> data[0..5] == [0x7F, 0x45, 0x4C, 0x46, 2] && data[16..18] == [2, 0]
  {
    FieldIsSum(data, 0);
    FieldIsSum(data, 4);
    FieldIsSum(data, 16);
    assert data[0..5] == [data[0], data[1], data[2], data[3], data[4]] && data[16..18] == [data[16], data[17]];
  }

  /** The entry point, the place of the program headers and their number. */
  lemma HeaderIsRead(data: seq<nat>, entry: nat, phoff: nat, count: nat, i: nat)
    requires |data| >= 64 && entry < U64 && phoff < U64 && count < 0x1_0000
    requires data[24..32] == Little(entry, 8) && data[32..40] == Little(phoff, 8) && data[56..58] == Little(count, 2)
    ensures Entry(data) == entry && HeaderCount(data) == count && HeaderOffset(data, i) == phoff + 56 * i
  {
    Limits();
    FieldOfLittle(data, 24, entry, 8);
    FieldOfLittle(data, 32, phoff, 8);
    FieldOfLittle(data, 56, count, 2);
  }

  predicate FieldsFit(s: Segment)
  {
    s.kind < U32 && s.flags < U32 && s.offset < U64 && s.vaddr < U64 && s.filesz < U64 && s.memsz < U64
  }

  /** The i-th program header lies 56 bytes behind the one before it. */
  lemma SegmentIsRead(data: seq<nat>, i: nat, at: nat, s: Segment)
    requires |data| >= 64 && at == HeaderOffset(data, i) && at + 56 <= |data| && FieldsFit(s)
    requires data[at..at + 4] == Little(s.kind, 4) && data[at + 4..at + 8] == Little(s.flags, 4) && data[at + 8..at + 16] == Little(s.offset, 8)
    requires data[at + 16..at + 24] == Little(s.vaddr, 8) && data[at + 32..at + 40] == Little(s.filesz, 8) && data[at + 40..at + 48] == Little(s.memsz, 8)
    ensures SegmentAt(data, i) == s
  {
    Limits();
    FieldOfLittle(data, at, s.kind, 4);
    FieldOfLittle(data, at + 4, s.flags, 4);
    FieldOfLittle(data, at + 8, s.offset, 8);
    FieldOfLittle(data, at + 16, s.vaddr, 8);
    FieldOfLittle(data, at + 32, s.filesz, 8);
    FieldOfLittle(data, at + 40, s.memsz, 8);
  }

  // ---------- Whole files ----------

  function HeaderParts(entry: nat, count: nat): seq<seq<nat>>
  {
    [[0x7F, 0x45, 0x4C, 0x46, 2], Zeros(11), [2, 0], Zeros(6), Little(entry, 8), Little(64, 8), Zeros(16), Little(count, 2), Zeros(6)]
  }

  function SegmentParts(s: Segment): seq<seq<nat>>
  {
    [Little(s.kind, 4), Little(s.flags, 4), Little(s.offset, 8), Little(s.vaddr, 8), Zeros(8), Little(s.filesz, 8), Little(s.memsz, 8), Zeros(8)]
  }

  lemma HeaderOffsets(entry: nat, count: nat)
    ensures Offset(HeaderParts(entry, count), 9) == 64
  {
    var parts := HeaderParts(entry, count);
    assert Offset(parts, 1) == 5;
    assert Offset(parts, 2) == 16;
    assert Offset(parts, 4) == 24;
    assert Offset(parts, 6) == 40;
    assert Offset(parts, 8) == 58;
  }

  lemma SegmentOffsets(s: Segment)
    ensures Offset(SegmentParts(s), 8) == 56
  {
    var parts := SegmentParts(s);
    assert Offset(parts, 1) == 4;
    assert Offset(parts, 2) == 8;
    assert Offset(parts, 4) == 24;
    assert Offset(parts, 6) == 40;
  }

  function HeaderBytes(entry: nat, count: nat): (b: seq<nat>)
    ensures |b| == 64
  {
    HeaderOffsets(entry, count);
    Flat(HeaderParts(entry, count), 9)
  }

  function SegmentBytes(s: Segment): (b: seq<nat>)
    ensures |b| == 56
  {
    SegmentOffsets(s);
    Flat(SegmentParts(s), 8)
  }

  function SegmentTables(segs: seq<Segment>): seq<seq<nat>>
  {
    seq(|segs|, i requires 0 <= i < |segs| => SegmentBytes(segs[i]))
  }

  lemma {:induction false} EvenOffset(parts: seq<seq<nat>>, size: nat, n: nat)
    requires n <= |parts| && forall k :: 0 <= k < |parts| ==> |parts[k]| == size
    ensures Offset(parts, n) == size * n
  {
    if n > 0 {
      EvenOffset(parts, size, n - 1);
    }
  }

  /** Header, program headers, and the rest of the file. */
  function FileOf(entry: nat, segs: seq<Segment>, rest: seq<nat>): (f: seq<nat>)
    ensures |f| == 64 + 56 * |segs| + |rest|
  {
    EvenOffset(SegmentTables(segs), 56, |segs|);
    HeaderBytes(entry, |segs|) + (Flat(SegmentTables(segs), |segs|) + rest)
  }

  lemma HeaderSlices(entry: nat, count: nat)
    ensures var b := HeaderBytes(entry, count);
      && b[0..5] == [0x7F, 0x45, 0x4C, 0x46, 2] && b[16..18] == [2, 0]
      && b[24..32] == Little(entry, 8) && b[32..40] == Little(64, 8) && b[56..58] == Little(count, 2)
  {
    var parts := HeaderParts(entry, count);
    PartAt(parts, 9, 0);
    PartAt(parts, 9, 2);
    PartAt(parts, 9, 4);
    PartAt(parts, 9, 5);
    PartAt(parts, 9, 7);
  }

  lemma SegmentSlices(s: Segment)
    ensures var b := SegmentBytes(s);
      && b[0..4] == Little(s.kind, 4) && b[4..8] == Little(s.flags, 4) && b[8..16] == Little(s.offset, 8)
      && b[16..24] == Little(s.vaddr, 8) && b[32..40] == Little(s.filesz, 8) && b[40..48] == Little(s.memsz, 8)
  {
    var parts := SegmentParts(s);
    PartAt(parts, 8, 0);
    PartAt(parts, 8, 1);
    PartAt(parts, 8, 2);
    PartAt(parts, 8, 3);
    PartAt(parts, 8, 5);
    PartAt(parts, 8, 6);
  }

  lemma MagicIsGood(f: seq<nat>)
    requires |f| >= 64 && f[0..5] == [0x7F, 0x45, 0x4C, 0x46, 2] && f[16..18] == [2, 0]
    ensures GoodHeader(f)
  {
    FieldIsSum(f, 0);
    FieldIsSum(f, 4);
    FieldIsSum(f, 16);
    assert f[0] == f[0..5][0] && f[1] == f[0..5][1] && f[2] == f[0..5][2] && f[3] == f[0..5][3] && f[4] == f[0..5][4];
    assert f[16] == f[16..18][0] && f[17] == f[16..18][1];
  }

  lemma FileHeaderIsRead(entry: nat, segs: seq<Segment>, rest: seq<nat>, i: nat)
    requires entry < U64 && |segs| < 0x1_0000
    ensures var f := FileOf(entry, segs, rest);
      GoodHeader(f) && Entry(f) == entry && HeaderCount(f) == |segs| && HeaderOffset(f, i) == 64 + 56 * i
  {
    var f, b := FileOf(entry, segs, rest), HeaderBytes(entry, |segs|);
    assert f[0..64] == b;
    HeaderSlices(entry, |segs|);
    SubSlice(f, 0, b, 0, 5);
    SubSlice(f, 0, b, 16, 18);
    SubSlice(f, 0, b, 24, 32);
    SubSlice(f, 0, b, 32, 40);
    SubSlice(f, 0, b, 56, 58);
    MagicIsGood(f);
    HeaderIsRead(f, entry, 64, |segs|, i);
  }

  lemma EvenPartAt(parts: seq<seq<nat>>, size: nat, i: nat)
    requires i < |parts| && forall k :: 0 <= k < |parts| ==> |parts[k]| == size
    ensures size * i + size <= |Flat(parts, |parts|)| && Flat(parts, |parts|)[size * i..size * i + size] == parts[i]
  {
    EvenOffset(parts, size, i);
    EvenOffset(parts, size, i + 1);
    PartAt(parts, |parts|, i);
  }

  lemma TableAt(entry: nat, segs: seq<Segment>, rest: seq<nat>, i: nat)
    requires i < |segs|
    ensures FileOf(entry, segs, rest)[64 + 56 * i..64 + 56 * i + 56] == SegmentBytes(segs[i])
  {
    TableIn(HeaderBytes(entry, |segs|), SegmentTables(segs), rest, i);
  }

  lemma TableIn(h: seq<nat>, parts: seq<seq<nat>>, rest: seq<nat>, i: nat)
    requires |h| == 64 && i < |parts| && forall k :: 0 <= k < |parts| ==> |parts[k]| == 56
    ensures 64 + 56 * i + 56 <= 64 + |Flat(parts, |parts|)|
    ensures (h + (Flat(parts, |parts|) + rest))[64 + 56 * i..64 + 56 * i + 56] == parts[i]
  {
    EvenPartAt(parts, 56, i);
    Shifted(h, Flat(parts, |parts|), rest, 56 * i, 56 * i + 56);
  }

  lemma Shifted(h: seq<nat>, t: seq<nat>, rest: seq<nat>, lo: nat, hi: nat)
    requires lo <= hi <= |t|
    ensures (h + (t + rest))[|h| + lo..|h| + hi] == t[lo..hi]
  {
  }

  lemma SegmentInFile(f: seq<nat>, at: nat, s: Segment)
    requires at + 56 <= |f| && f[at..at + 56] == SegmentBytes(s)
    ensures f[at..at + 4] == Little(s.kind, 4) && f[at + 4..at + 8] == Little(s.flags, 4) && f[at + 8..at + 16] == Little(s.offset, 8)
    ensures f[at + 16..at + 24] == Little(s.vaddr, 8) && f[at + 32..at + 40] == Little(s.filesz, 8) && f[at + 40..at + 48] == Little(s.memsz, 8)
  {
    var b := SegmentBytes(s);
    SegmentSlices(s);
    SubSlice(f, at, b, 0, 4);
    SubSlice(f, at, b, 4, 8);
    SubSlice(f, at, b, 8, 16);
    SubSlice(f, at, b, 16, 24);
    SubSlice(f, at, b, 32, 40);
    SubSlice(f, at, b, 40, 48);
  }

  lemma FileSegmentIsRead(entry: nat, segs: seq<Segment>, rest: seq<nat>, i: nat)
    requires entry < U64 && |segs| < 0x1_0000 && i < |segs| && FieldsFit(segs[i])
    ensures var f := FileOf(entry, segs, rest); HeaderOffset(f, i) == 64 + 56 * i && SegmentAt(f, i) == segs[i]
  {
    var f, at := FileOf(entry, segs, rest), 64 + 56 * i;
    FileHeaderIsRead(entry, segs, rest, i);
    TableAt(entry, segs, rest, i);
    SegmentInFile(f, at, segs[i]);
    SegmentIsRead(f, i, at, segs[i]);
  }

  /** A segment a file of length `n` can hold: its fields fit, and a loadable one lies in the file and below 2^48. */
  predicate Encodable(s: Segment, n: nat)
  {
    FieldsFit(s) && (s.kind == 1 ==> s.offset + s.filesz <= n && s.vaddr + s.memsz <= VIRTUAL_LIMIT)
  }

  ghost predicate OnOwnPages(segs: seq<Segment>)
  {
    forall i, j {:trigger segs[i], segs[j]} :: 0 <= i < |segs| && 0 <= j < |segs| && i != j && segs[i].kind == 1 && segs[j].kind == 1 ==>
      Before(segs[i], segs[j]) || Before(segs[j], segs[i])
  }

  /** The loader accepts the file, and finds its entry point and each of its segments. */
  lemma FileIsAccepted(entry: nat, segs: seq<Segment>, rest: seq<nat>)
    requires entry < U64 && |segs| < 0x1_0000 && OnOwnPages(segs)
    requires forall i :: 0 <= i < |segs| ==> Encodable(segs[i], 64 + 56 * |segs| + |rest|)
    ensures var f := FileOf(entry, segs, rest);
      && GoodHeader(f) && ImageOk(f) && Entry(f) == entry && HeaderCount(f) == |segs|
      && forall i :: 0 <= i < |segs| ==> HeaderOffset(f, i) + 56 <= |f| && SegmentAt(f, i) == segs[i]
  {
    var f := FileOf(entry, segs, rest);
    FileHeaderIsRead(entry, segs, rest, 0);
    forall i | 0 <= i < |segs|
      ensures HeaderOffset(f, i) + 56 <= |f| && SegmentAt(f, i) == segs[i] && SegmentOk(f, i)
    {
      FileSegmentIsRead(entry, segs, rest, i);
    }
    forall i, j | 0 <= i < |segs| && 0 <= j < |segs|
      ensures PagesApart(f, i, j)
    {
      assert SegmentAt(f, i) == segs[i] && SegmentAt(f, j) == segs[j];
    }
  }

  // ---------- Files that are loaded wrongly ----------

  /** Zeros but for a one at `at`. */
  function OneHot(n: nat, at: nat): seq<nat>
    requires at < n
  {
    Zeros(at) + [1] + Zeros(n - at - 1)
  }

  /** The first file byte that does not fit on the first page. */
  function FirstLost(s: Segment): nat
  {
    PAGE_SIZE - s.PageOffset()
  }

  /** One loadable segment with no more file bytes than memory. */
  predicate Loadable(s: Segment, n: nat)
  {
    s.kind == 1 && Encodable(s, n) && s.filesz <= s.memsz
  }

  lemma BehindHeaders(entry: nat, s: Segment, rest: seq<nat>, j: nat)
    requires 120 <= j < 120 + |rest|
    ensures FileOf(entry, [s], rest)[j] == rest[j - 120]
  {
  }

  /**
    For every segment that is not placeable, and whose first lost byte lies behind the
    headers, there is a file the loader accepts in which that byte is not loaded.
   */
  lemma UnplaceableIsWrong(n: nat, entry: nat, s: Segment) returns (file: seq<nat>)
    requires Loadable(s, n) && entry < U64 && !Placeable(s) && 120 <= s.offset + FirstLost(s)
    ensures Contains(file, n, s, 0) && HeaderCount(file) == 1 && Entry(file) == entry
    ensures WantedByte(file, s, FirstLost(s)) == 1 && PlacedByte(file, s, FirstLost(s)) == 0 && !RightImage(file, s)
  {
    var rest := OneHot(n - 120, s.offset + FirstLost(s) - 120);
    file := FileOf(entry, [s], rest);
    FileIsAccepted(entry, [s], rest);
    BehindHeaders(entry, s, rest, s.offset + FirstLost(s));
    if s.offset + PAGE_SIZE < n {
      BehindHeaders(entry, s, rest, s.offset + PAGE_SIZE);
    }
    LostByte(file, s);
  }

  lemma LostByte(file: seq<nat>, s: Segment)
    requires !Placeable(s) && s.filesz <= s.memsz && s.offset + s.filesz <= |file| && file[s.offset + FirstLost(s)] == 1
    requires s.offset + PAGE_SIZE < |file| ==> file[s.offset + PAGE_SIZE] == 0
    ensures WantedByte(file, s, FirstLost(s)) == 1 && PlacedByte(file, s, FirstLost(s)) == 0 && !RightImage(file, s)
  {
    PlacedOnLaterPage(file, s, FirstLost(s));
    assert !RightAt(file, s, FirstLost(s));
  }

  /** Once a file is loaded, a misplaced byte is read in place of the one the segment asks for. */
  lemma MisplacedReadsWrong(t: Tables, b: Bytes, h: set<nat>, pagemap: nat, file: seq<nat>, s: Segment, i: nat, d: nat)
    requires Contains(file, |file|, s, i) && d < s.memsz && PlacedByte(file, s, d) != WantedByte(file, s, d)
    requires LoadedUpTo(t, b, h, pagemap, file, HeaderCount(file), 0)
    ensures MemoryByte(t, b, pagemap, s.vaddr + d) != WantedByte(file, s, d)
  {
    LoadedReadsBack(t, b, h, pagemap, file, i, d);
  }

  /** A file of length `n` that the loader accepts, with the segment among its headers. */
  ghost predicate Contains(data: seq<nat>, n: nat, s: Segment, i: nat)
  {
    |data| == n >= HEADER_SIZE && GoodHeader(data) && ImageOk(data) && i < HeaderCount(data) && Loads(data, i) && SegmentAt(data, i) == s
  }

  ghost predicate RightForAllFiles(n: nat, s: Segment)
  {
    forall data, i {:trigger Contains(data, n, s, i)} :: Contains(data, n, s, i) ==> RightImage(data, s)
  }

  /** The loader gets every accepted file with the segment right exactly when the segment is placeable. */
  lemma RightIffPlaceable(n: nat, s: Segment)
    requires Loadable(s, n) && 120 <= s.offset + FirstLost(s)
    ensures RightForAllFiles(n, s) <==> Placeable(s)
  {
    if Placeable(s) {
      forall data, i | Contains(data, n, s, i)
        ensures RightImage(data, s)
      {
        PlaceableIsRight(data, s);
      }
    } else {
      var file := UnplaceableIsWrong(n, 0, s);
      assert Contains(file, n, s, 0);
    }
  }

  ghost predicate ReadsRight(t: Tables, b: Bytes, pagemap: nat, data: seq<nat>, s: Segment, d: nat)
  {
    MemoryByte(t, b, pagemap, s.vaddr + d) == WantedByte(data, s, d)
  }

  ghost predicate AllReadsRight(t: Tables, b: Bytes, pagemap: nat, data: seq<nat>, s: Segment)
  {
    forall d {:trigger ReadsRight(t, b, pagemap, data, s, d)} :: 0 <= d < s.memsz ==> ReadsRight(t, b, pagemap, data, s, d)
  }

  /** After loading any file: a segment reads as asked for exactly when the image is right. */
  lemma ReadsRightIffRight(t: Tables, b: Bytes, h: set<nat>, pagemap: nat, data: seq<nat>, i: nat)
    requires |data| >= HEADER_SIZE && LoadedUpTo(t, b, h, pagemap, data, HeaderCount(data), 0)
    requires i < HeaderCount(data) && Loads(data, i)
    ensures AllReadsRight(t, b, pagemap, data, SegmentAt(data, i)) <==> RightImage(data, SegmentAt(data, i))
  {
    var s := SegmentAt(data, i);
    forall d | 0 <= d < s.memsz
      ensures ReadsRight(t, b, pagemap, data, s, d) <==> RightAt(data, s, d)
    {
      LoadedReadsBack(t, b, h, pagemap, data, i, d);
    }
  }
}
