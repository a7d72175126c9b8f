/** Writing USTAR archives: what is written is what the loader reads. */
module UstarArchive {
  import opened Machine
  import opened Sequences
  import opened VnodeTree
  import opened Ustar

  /** A path as it is spelled in the archive, whether it is a directory, and the bytes of a file. */
  datatype Entry = Entry(pre: string, path: seq<string>, post: string, dir: bool, bytes: string) {
    function Name(): string { pre + Joined(path) + post }
  }

  /** The name fits its field with a terminator, and the size its field. */
  predicate Short(e: Entry)
  {
    |e.Name()| < 100 && |e.bytes| < U32
  }

  ghost predicate Writable(e: Entry)
  {
    && (e.pre == "" || e.pre == "./") && IsTail(e.post) && e.path != [] && NamesOk(e.path) && e.path[0] != "."
    && Short(e) && |e.bytes| + 511 < U32 && (e.dir ==> e.bytes == "")
  }

  function Nuls(n: nat): (s: string)
    ensures |s| == n && forall i :: 0 <= i < n ==> s[i] == '\0'
  {
    seq(n, _ => '\0')
  }

  /** Eleven octal digits. */
  function Octal(n: nat): (s: string)
    requires n < U32
    ensures |s| == 11
  {
    OctalFits(n);
    var ds := Numerals.Digits(n, 8, true);
    Numerals.ZeroDigits(11 - |ds|) + ds
  }

  lemma OctalFits(n: nat)
    requires n < U32
    ensures |Numerals.Digits(n, 8, true)| <= 11
  {
    assert Numerals.Pow(8, 3) == 0x200;
    Numerals.PowSum(8, 3, 3);
    Numerals.PowSum(8, 6, 3);
    Numerals.PowSum(8, 9, 2);
    assert Numerals.Pow(8, 2) == 0x40;
    Numerals.DigitCount(n, 8, true, 11);
  }

  lemma OctalReads(n: nat)
    requires n < U32
    ensures Numerals.AllDigits(Octal(n), 8) && Numerals.Value(Octal(n), 8) == n
  {
    OctalFits(n);
    var ds := Numerals.Digits(n, 8, true);
    Numerals.ValueOfDigits(n, 8, true);
    Numerals.LeadingZeros(11 - |ds|, ds, 8);
  }

  /** What fills the last block. */
  function Padding(n: nat): nat
  {
    (512 - n % 512) % 512
  }

  function Parts(e: Entry): seq<string>
    requires Short(e)
  {
    [e.Name(), Nuls(124 - |e.Name()|), Octal(|e.bytes|), Nuls(21), [if e.dir then '5' else '0'], Nuls(355), e.bytes, Nuls(Padding(|e.bytes|))]
  }

  lemma PartOffsets(e: Entry)
    requires Short(e)
    ensures var p := Parts(e);
      && Offset(p, 0) == 0 && Offset(p, 1) == |e.Name()| && Offset(p, 2) == 124 && Offset(p, 3) == 135 && Offset(p, 4) == 156
      && Offset(p, 5) == 157 && Offset(p, 6) == 512 && Offset(p, 7) == 512 + |e.bytes| && Offset(p, 8) == 512 + (|e.bytes| + 511) / 512 * 512
  {
    var p := Parts(e);
    assert Offset(p, 1) == |e.Name()|;
    assert Offset(p, 2) == 124;
    assert Offset(p, 3) == 135;
    assert Offset(p, 4) == 156;
    assert Offset(p, 5) == 157;
    assert Offset(p, 6) == 512;
    assert Offset(p, 7) == 512 + |e.bytes|;
  }

  /** One entry: header block, contents, padding. */
  function EntryBytes(e: Entry): (b: string)
    requires Short(e)
    ensures |b| == 512 + (|e.bytes| + 511) / 512 * 512
  {
    PartOffsets(e);
    Flat(Parts(e), 8)
  }

  lemma EntrySlices(e: Entry)
    requires Short(e)
    ensures var b, k := EntryBytes(e), |e.Name()|;
      && b[0..k] == e.Name() && b[k..124] == Nuls(124 - k) && b[124..135] == Octal(|e.bytes|) && b[135..156] == Nuls(21)
      && b[156..157] == [if e.dir then '5' else '0'] && b[512..512 + |e.bytes|] == e.bytes
  {
    var p := Parts(e);
    PartOffsets(e);
    PartAt(p, 8, 0);
    PartAt(p, 8, 1);
    PartAt(p, 8, 2);
    PartAt(p, 8, 3);
    PartAt(p, 8, 4);
    PartAt(p, 8, 6);
  }

  ghost predicate AllWritable(es: seq<Entry>)
  {
    forall k :: 0 <= k < |es| ==> Writable(es[k])
  }

  /** Entries one behind the other, and whatever ends the archive. */
  function Archive(es: seq<Entry>, end: string): string
    requires AllWritable(es)
  {
    if es == [] then end else EntryBytes(es[0]) + Archive(es[1..], end)
  }

  function ItemsOf(es: seq<Entry>): seq<Item>
  {
    if es == [] then [] else [Item(es[0].path, es[0].dir, es[0].bytes)] + ItemsOf(es[1..])
  }

  lemma NameIsCString(e: Entry)
    requires Writable(e)
    ensures '\0' !in e.Name() && e.Name() != ""
  {
    JoinedIsCString(e.path);
    JoinedSplits(e.path, e.post);
  }

  lemma {:induction false} JoinedIsCString(path: seq<string>)
    requires NamesOk(path)
    ensures '\0' !in Joined(path)
    decreases |path|
  {
    if |path| > 1 {
      JoinedIsCString(path[1..]);
    }
  }

  lemma HeaderSlices(e: Entry, h: string)
    requires Short(e) && |EntryBytes(e)| <= |h| && h[0..|EntryBytes(e)|] == EntryBytes(e)
    ensures var k := |e.Name()|;
      && |h| >= 512 + |e.bytes| && h[0..k] == e.Name() && h[k..124] == Nuls(124 - k) && h[124..135] == Octal(|e.bytes|) && h[135..156] == Nuls(21)
      && h[156] == (if e.dir then '5' else '0') && h[512..512 + |e.bytes|] == e.bytes
  {
    var b, k, n := EntryBytes(e), |e.Name()|, |e.bytes|;
    EntrySlices(e);
    SubSlice(h, 0, b, 0, k);
    SubSlice(h, 0, b, k, 124);
    SubSlice(h, 0, b, 124, 135);
    SubSlice(h, 0, b, 135, 156);
    SubSlice(h, 0, b, 156, 157);
    SubSlice(h, 0, b, 512, 512 + n);
    assert h[156] == h[156..157][0];
  }

  /** The header is read as the entry written. */
  lemma EntryIsRead(e: Entry, h: string)
    requires Writable(e) && |EntryBytes(e)| <= |h| && h[0..|EntryBytes(e)|] == EntryBytes(e)
    ensures EntryOk(h) && ItemOf(h) == Item(e.path, e.dir, e.bytes) && Advance(SizeOf(h)) == |EntryBytes(e)| && h[0] != '\0'
  {
    HeaderSlices(e, h);
    NameIsRead(e, h);
    SizeIsRead(|e.bytes|, h);
  }

  lemma TextIsRead(h: string, t: string)
    requires |h| >= 512 && |t| < 100 && h[0..|t|] == t && h[|t|..124] == Nuls(124 - |t|) && '\0' !in t && t != ""
    ensures CText(h, 0) == t && h[0] != '\0'
  {
    assert forall j :: 0 <= j < |t| ==> h[j] == h[0..|t|][j] == t[j] && t[j] in t;
    assert h[|t|] == h[|t|..124][0];
    CTextUpTo(h, 0, |t|);
  }

  lemma NameIsRead(e: Entry, h: string)
    requires Writable(e) && |h| >= 512 && h[0..|e.Name()|] == e.Name() && h[|e.Name()|..124] == Nuls(124 - |e.Name()|)
    ensures CText(h, 0) == e.Name() && PathOf(h) == e.path && h[0] != '\0'
  {
    NameIsCString(e);
    TextIsRead(h, e.Name());
    SpelledPath(h, e.pre, e.path, e.post);
  }

  lemma SizeIsRead(n: nat, h: string)
    requires n < U32 && |h| >= 512 && h[124..135] == Octal(n) && h[135..156] == Nuls(21)
    ensures SizeOf(h) == n
  {
    OctalReads(n);
    assert h[135] == h[135..156][0];
    OctalSize(h, Octal(n));
  }

  /** Writing entries and reading the archive gives the entries back. */
  lemma {:induction false} ArchiveRoundTrip(es: seq<Entry>, end: string)
    requires AllWritable(es) && (end == "" || end[0] == '\0')
    ensures ArchiveOk(Archive(es, end)) && Items(Archive(es, end)) == ItemsOf(es)
    decreases |es|
  {
    if es != [] {
      assert AllWritable(es[1..]);
      ArchiveRoundTrip(es[1..], end);
      ReadFirst(es[0], Archive(es[1..], end));
    }
  }

  lemma ReadFirst(e: Entry, rest: string)
    requires Writable(e) && ArchiveOk(rest)
    ensures var h := EntryBytes(e) + rest; ArchiveOk(h) && Items(h) == [Item(e.path, e.dir, e.bytes)] + Items(rest)
  {
    var b := EntryBytes(e);
    var h := b + rest;
    assert h[0..|b|] == b && h[|b|..] == rest;
    EntryIsRead(e, h);
  }
}
