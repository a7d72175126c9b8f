/** USTAR archives: the entries the headers describe, and the tree they make. */
module Ustar {
  import opened Machine
  import opened VnodeTree
  import Strtol
  import Numerals

  const BLOCK: nat := 512
  const NAME_SIZE: nat := 100
  const SIZE_AT: nat := 124
  const TYPE_AT: nat := 156

  // ---------- C strings and tokens ----------

  /** The C string that starts at `i`. */
  function CText(h: string, i: nat): (t: string)
    ensures i <= |h| ==> |t| <= |h| - i && t == h[i..i + |t|] && (i + |t| == |h| || h[i + |t|] == '\0')
    ensures '\0' !in t
    decreases |h| - i
  {
    if i < |h| && h[i] != '\0' then [h[i]] + CText(h, i + 1) else ""
  }

  /** Where the slashes, or the other characters, that begin at `i` end. */
  function SpanEnd(t: string, i: nat, slashes: bool): (k: nat)
    requires i <= |t|
    ensures i <= k <= |t| && (k < |t| ==> (t[k] == '/') != slashes)
    ensures forall j :: i <= j < k ==> (t[j] == '/') == slashes
    decreases |t| - i
  {
    if i < |t| && (t[i] == '/') == slashes then SpanEnd(t, i + 1, slashes) else i
  }

  lemma {:induction false} SpanEndIs(t: string, i: nat, k: nat, slashes: bool)
    requires i <= k <= |t| && (forall j :: i <= j < k ==> (t[j] == '/') == slashes) && (k < |t| ==> (t[k] == '/') != slashes)
    ensures SpanEnd(t, i, slashes) == k
    decreases k - i
  {
    if i < k {
      SpanEndIs(t, i + 1, k, slashes);
    }
  }

  /** Where the name that follows ends. */
  function NameEnd(t: string, i: nat): (k: nat)
    requires i <= |t|
    ensures SpanEnd(t, i, true) <= k <= |t| && (SpanEnd(t, i, true) < |t| ==> SpanEnd(t, i, true) < k)
  {
    SpanEnd(t, SpanEnd(t, i, true), false)
  }

  /** One past a slash. */
  function Past(t: string, k: nat): nat
    requires k <= |t|
  {
    if k < |t| then k + 1 else k
  }

  /** The names between the slashes from `i` on. */
  function Tokens(t: string, i: nat): seq<string>
    requires i <= |t|
    decreases |t| - i
  {
    if SpanEnd(t, i, true) == |t| then []
    else [t[SpanEnd(t, i, true)..NameEnd(t, i)]] + Tokens(t, Past(t, NameEnd(t, i)))
  }

  predicate Plain(name: string)
  {
    name != "" && '/' !in name
  }

  lemma {:induction false} TokensArePlain(t: string, i: nat)
    requires i <= |t|
    ensures forall k :: 0 <= k < |Tokens(t, i)| ==> Plain(Tokens(t, i)[k])
    decreases |t| - i
  {
    if SpanEnd(t, i, true) < |t| {
      TokensArePlain(t, Past(t, NameEnd(t, i)));
      assert Plain(t[SpanEnd(t, i, true)..NameEnd(t, i)]);
    }
  }

  /** The names of a short C string are proper names. */
  lemma {:induction false} TokensAreNames(t: string, i: nat)
    requires i <= |t| <= NAME_MAX && '\0' !in t
    ensures NamesOk(Tokens(t, i))
    decreases |t| - i
  {
    if SpanEnd(t, i, true) < |t| {
      TokensAreNames(t, Past(t, NameEnd(t, i)));
      assert NameOk(t[SpanEnd(t, i, true)..NameEnd(t, i)]);
    }
  }

  lemma FirstToken(t: string, i: nat, name: string, tail: string)
    requires i <= |t| && NameOk(name) && (tail == "" || tail[0] == '/') && t[i..] == name + tail
    ensures var k := i + |name|;
      && SpanEnd(t, i, true) == i < |t| && NameEnd(t, i) == k && t[i..k] == name
      && (tail == "" ==> Past(t, k) == |t|) && (tail != "" ==> Past(t, k) == k + 1 && t[k + 1..] == tail[1..])
  {
    var k, text := i + |name|, t[i..];
    assert forall j :: i <= j < |t| ==> t[j] == text[j - i];
    assert forall j :: 0 <= j < |name| ==> text[j] == name[j] != '/';
    SpanEndIs(t, i, i, true);
    SpanEndIs(t, i, k, false);
    assert t[i..k] == text[..|name|];
    assert tail != "" ==> t[k + 1..] == text[|name| + 1..] == tail[1..];
  }

  lemma TokensStep(t: string, i: nat, name: string, tail: string)
    requires i <= |t| && NameOk(name) && (tail == "" || tail[0] == '/') && t[i..] == name + tail
    ensures i + |name| <= |t| && Tokens(t, i) == [name] + Tokens(t, Past(t, i + |name|))
  {
    FirstToken(t, i, name, tail);
  }

  lemma NoTokens(t: string, i: nat)
    requires i <= |t| && IsTail(t[i..])
    ensures Tokens(t, i) == []
  {
    assert forall j :: i <= j < |t| ==> t[j] == t[i..][j - i];
    SpanEndIs(t, i, |t|, true);
  }

  /** Splitting the text of a path, with or without a slash at its end, gives the path's names. */
  lemma {:induction false} TokensOfJoined(t: string, i: nat, path: seq<string>, post: string)
    requires i <= |t| && NamesOk(path) && IsTail(post) && t[i..] == Joined(path) + post
    ensures Tokens(t, i) == path
    decreases |path|
  {
    if path == [] {
      NoTokens(t, i);
    } else {
      JoinedSplits(path, post);
      var name, tail := path[0], AfterFirst(path, post);
      FirstToken(t, i, name, tail);
      TokensStep(t, i, name, tail);
      var k := Past(t, i + |name|);
      if |path| == 1 {
        NoTokens(t, k);
      } else {
        TokensOfJoined(t, k, path[1..], post);
      }
      assert path == [name] + path[1..];
    }
  }

  // ---------- Entries ----------

  datatype Item = Item(path: seq<string>, dir: bool, bytes: string)

  /** The name without a leading "./". */
  function EntryName(h: string): string
  {
    var raw := CText(h, 0);
    if "./" <= raw then raw[2..] else raw
  }

  /** No path for "" and ".", which are skipped. */
  function PathOf(h: string): seq<string>
  {
    if EntryName(h) == "." then [] else Tokens(EntryName(h), 0)
  }

  /** How an archive may spell a path: "./" in front or not, a slash behind or not. */
  ghost predicate SpelledIn(h: string, pre: string, path: seq<string>, post: string)
  {
    && (pre == "" || pre == "./") && IsTail(post) && path != [] && NamesOk(path) && path[0] != "."
    && CText(h, 0) == pre + Joined(path) + post
  }

  /** However it is spelled, the entry's path is the one written. */
  lemma SpelledPath(h: string, pre: string, path: seq<string>, post: string)
    requires SpelledIn(h, pre, path, post)
    ensures EntryName(h) == Joined(path) + post && PathOf(h) == path
  {
    var name, raw := Joined(path) + post, CText(h, 0);
    assert raw == pre + name;
    NoDotSlash(path, post);
    assert pre == "" ==> raw == name;
    assert pre == "./" ==> "./" <= raw && raw[2..] == name;
    assert name[0..] == name;
    TokensOfJoined(name, 0, path, post);
  }

  /** The entry for the archive's own top directory has no path. */
  lemma TopIsSkipped(h: string)
    requires CText(h, 0) in {"", ".", "./", "./."}
    ensures PathOf(h) == []
  {
    assert "./"[2..] == "" && "./."[2..] == ".";
    assert SpanEnd("", 0, true) == 0;
  }

  lemma NoDotSlash(path: seq<string>, post: string)
    requires path != [] && NameOk(path[0]) && IsTail(post) && path[0] != "."
    ensures !("./" <= Joined(path) + post) && Joined(path) + post != "."
  {
    var name := Joined(path) + post;
    JoinedSplits(path, post);
    assert name[..|path[0]|] == path[0];
    assert |path[0]| > 1 ==> name[1] == path[0][1] != '/';
    assert |path[0]| == 1 ==> path[0] == [name[0]];
  }

  /** The size field is octal text. */
  function SizeOf(h: string): int
  {
    Strtol.Meaning(CText(h, SIZE_AT), 8)
  }

  predicate IsDir(h: string)
    requires |h| >= BLOCK
  {
    h[TYPE_AT] == '5'
  }

  /** Header and contents, in whole blocks. */
  function Advance(size: nat): (k: nat)
    ensures 512 + size <= k < 1024 + size && k % 512 == 0
  {
    BLOCK + (size + 511) / 512 * 512
  }

  /** A terminated name, a size that fits 32 bits with room to round up, and the contents in the archive. */
  ghost predicate EntryOk(h: string)
  {
    && |h| >= BLOCK && |CText(h, 0)| < NAME_SIZE
    && 0 <= SizeOf(h) && SizeOf(h) + 511 < U32 && Advance(SizeOf(h)) <= |h|
  }

  function ItemOf(h: string): Item
    requires |h| >= BLOCK && 0 <= SizeOf(h) && BLOCK + SizeOf(h) <= |h|
  {
    Item(PathOf(h), IsDir(h), if IsDir(h) then "" else h[BLOCK..BLOCK + SizeOf(h)])
  }

  /** Headers follow each other up to the end or to an empty name. */
  ghost predicate ArchiveOk(h: string)
    decreases |h|
  {
    h == "" || h[0] == '\0' || (EntryOk(h) && ArchiveOk(h[Advance(SizeOf(h))..]))
  }

  ghost function Items(h: string): seq<Item>
    requires ArchiveOk(h)
    decreases |h|
  {
    if h == "" || h[0] == '\0' then [] else [ItemOf(h)] + Items(h[Advance(SizeOf(h))..])
  }

  /** A size field of octal digits and a terminator means the number they spell. */
  lemma OctalSize(h: string, digits: string)
    requires |h| >= 512 && 0 < |digits| <= 11 && h[124..124 + |digits|] == digits
    requires h[124 + |digits|] == '\0' && Numerals.AllDigits(digits, 8)
    ensures SizeOf(h) == Strtol.Clamp(Numerals.Value(digits, 8))
  {
    assert forall j :: 124 <= j < 124 + |digits| ==> h[j] == digits[j - 124];
    CTextUpTo(h, 124, |digits|);
    OctalMeaning(digits);
  }

  lemma {:induction false} CTextUpTo(h: string, i: nat, k: nat)
    requires i + k <= |h| && (i + k == |h| || h[i + k] == '\0') && forall j :: i <= j < i + k ==> h[j] != '\0'
    ensures CText(h, i) == h[i..i + k]
    decreases k
  {
    if k > 0 {
      CTextUpTo(h, i + 1, k - 1);
      assert h[i..i + k] == [h[i]] + h[i + 1..i + k];
    }
  }

  lemma OctalMeaning(digits: string)
    requires digits != "" && Numerals.AllDigits(digits, 8)
    ensures Strtol.Meaning(digits, 8) == Strtol.Clamp(Numerals.Value(digits, 8))
  {
    assert Numerals.IsDigit(digits[0], 8);
    assert Strtol.SkipSpaces(digits, 0) == 0;
    assert Strtol.RunEnd(digits, 0, 8) == |digits|;
    assert digits[0..|digits|] == digits;
  }

  // ---------- The tree an archive makes ----------

  function ContentOf(item: Item): Content
  {
    Content(if item.dir then Dir else File, item.bytes)
  }

  /** An item is put in its place, unless there is something already. */
  ghost function Apply(view: View, root: nat, item: Item): View
  {
    if item.path == [] || Place(root, item.path) in view then view else view[Place(root, item.path) := ContentOf(item)]
  }

  ghost predicate HasDir(view: View, root: nat, path: seq<string>)
  {
    Place(root, path) in view && view[Place(root, path)].kind == Dir
  }

  function Front(path: seq<string>): seq<string>
  {
    if path == [] then [] else path[..|path| - 1]
  }

  /** There is something in the item's place, or a directory to put it in. */
  ghost predicate CanApply(view: View, root: nat, item: Item)
  {
    item.path == [] || Place(root, item.path) in view || HasDir(view, root, Front(item.path))
  }

  ghost function LoadAll(view: View, root: nat, items: seq<Item>): View
    decreases |items|
  {
    if items == [] then view else LoadAll(Apply(view, root, items[0]), root, items[1..])
  }

  ghost predicate CanLoad(view: View, root: nat, items: seq<Item>)
    decreases |items|
  {
    items == [] || (CanApply(view, root, items[0]) && CanLoad(Apply(view, root, items[0]), root, items[1..]))
  }

  /** Item `i` is new, and its parent is there from the start or listed before it. */
  ghost predicate InOrder(view: View, root: nat, items: seq<Item>, i: nat)
    requires i < |items|
  {
    && Place(root, items[i].path) !in view
    && (forall j :: 0 <= j < i ==> items[j].path != items[i].path)
    && (HasDir(view, root, Front(items[i].path)) || exists j :: 0 <= j < i && items[j].dir && [] != items[j].path == Front(items[i].path))
  }

  /** Parents before children, and no path twice; items without a path do nothing. */
  ghost predicate WellOrdered(view: View, root: nat, items: seq<Item>)
  {
    forall i {:trigger InOrder(view, root, items, i)} :: 0 <= i < |items| && items[i].path != [] ==> InOrder(view, root, items, i)
  }

  lemma WellOrderedTail(view: View, root: nat, items: seq<Item>)
    requires items != [] && WellOrdered(view, root, items)
    ensures WellOrdered(Apply(view, root, items[0]), root, items[1..])
  {
    var rest := items[1..];
    var after := Apply(view, root, items[0]);
    forall i | 0 <= i < |rest| && rest[i].path != []
      ensures InOrder(after, root, rest, i)
    {
      assert InOrder(view, root, items, i + 1);
      assert items[0].path != [] ==> InOrder(view, root, items, 0);
      if !HasDir(after, root, Front(rest[i].path)) {
        var j :| 0 <= j < i + 1 && items[j].dir && [] != items[j].path == Front(items[i + 1].path);
        assert j != 0;
        assert rest[j - 1] == items[j];
      }
    }
  }

  /** An archived item is there with its kind and bytes. */
  ghost predicate Archived(after: View, root: nat, item: Item)
  {
    item.path != [] ==> Place(root, item.path) in after && after[Place(root, item.path)] == ContentOf(item)
  }

  ghost predicate Listed(root: nat, items: seq<Item>, place: Place)
  {
    exists i :: 0 <= i < |items| && items[i].path != [] && place == Place(root, items[i].path)
  }

  ghost predicate KeptIn(view: View, after: View, place: Place)
  {
    place in view ==> place in after && after[place] == view[place]
  }

  /** The archive's items are all there, what was there is unchanged, and there is nothing else. */
  ghost predicate ExactlyAdded(view: View, after: View, root: nat, items: seq<Item>)
  {
    && (forall i :: 0 <= i < |items| ==> Archived(after, root, items[i]))
    && (forall place {:trigger KeptIn(view, after, place)} :: KeptIn(view, after, place))
    && (forall place {:trigger Listed(root, items, place)} :: place in after ==> place in view || Listed(root, items, place))
  }

  /** A well-ordered archive can be loaded and makes exactly its tree. */
  lemma {:induction false} WellOrderedLoads(view: View, root: nat, items: seq<Item>)
    requires WellOrdered(view, root, items)
    ensures CanLoad(view, root, items) && ExactlyAdded(view, LoadAll(view, root, items), root, items)
    decreases |items|
  {
    if items != [] {
      var mid, rest := Apply(view, root, items[0]), items[1..];
      WellOrderedTail(view, root, items);
      WellOrderedLoads(mid, root, rest);
      assert items[0].path != [] ==> InOrder(view, root, items, 0);
      AddedFirst(view, LoadAll(view, root, items), root, items);
    }
  }

  lemma AddedFirst(view: View, after: View, root: nat, items: seq<Item>)
    requires items != [] && (items[0].path != [] ==> Place(root, items[0].path) !in view)
    requires ExactlyAdded(Apply(view, root, items[0]), after, root, items[1..])
    ensures ExactlyAdded(view, after, root, items)
  {
    var mid, rest := Apply(view, root, items[0]), items[1..];
    forall i | 0 <= i < |items|
      ensures Archived(after, root, items[i])
    {
      if i == 0 {
        assert KeptIn(mid, after, Place(root, items[0].path));
      } else {
        assert Archived(after, root, rest[i - 1]);
      }
    }
    forall place
      ensures KeptIn(view, after, place)
    {
      assert KeptIn(mid, after, place);
    }
    forall place | place in after && place !in view
      ensures Listed(root, items, place)
    {
      if place in mid {
        assert place == Place(root, items[0].path);
      } else {
        assert Listed(root, rest, place);
        var i :| 0 <= i < |rest| && rest[i].path != [] && place == Place(root, rest[i].path);
        assert items[i + 1] == rest[i];
      }
    }
  }

  /** What is in a place stays, whatever is loaded: the first entry of a path wins. */
  lemma {:induction false} LoadKeeps(view: View, root: nat, items: seq<Item>, place: Place)
    requires place in view
    ensures place in LoadAll(view, root, items) && LoadAll(view, root, items)[place] == view[place]
    decreases |items|
  {
    if items != [] {
      LoadKeeps(Apply(view, root, items[0]), root, items[1..], place);
    }
  }

  /** The archive from its i-th header on. */
  ghost function HeaderOf(h: string, i: nat): string
    requires ArchiveOk(h) && i < |Items(h)|
    decreases i
  {
    if i == 0 then h else HeaderOf(h[Advance(SizeOf(h))..], i - 1)
  }

  lemma {:induction false} ItemAt(h: string, i: nat)
    requires ArchiveOk(h) && i < |Items(h)|
    ensures EntryOk(HeaderOf(h, i)) && Items(h)[i] == ItemOf(HeaderOf(h, i))
    decreases i
  {
    if i > 0 {
      ItemAt(h[Advance(SizeOf(h))..], i - 1);
    }
  }

  lemma ItemsHaveNames(h: string, i: nat)
    requires ArchiveOk(h) && i < |Items(h)|
    ensures NamesOk(Items(h)[i].path)
  {
    ItemAt(h, i);
    TokensAreNames(EntryName(HeaderOf(h, i)), 0);
  }

  /** An archived item has a node of the right kind with the archived bytes, and every way to write its path leads there. */
  lemma ItemResolves(n: Nodes, kids: Kids, at: Places, after: View, root: nat, item: Item, post: string) returns (v: nat)
    requires TreeOk(n, kids, at) && Views(n, at, after) && root in n && at[root] == Place(root, [])
    requires item.path != [] && NamesOk(item.path) && Archived(after, root, item) && IsTail(post)
    ensures Walk(n, kids, root, Joined(item.path) + post) == v && v in n && v != 0 && Content(n[v].kind, n[v].bytes) == ContentOf(item)
  {
    var path := item.path;
    assert Inhabited(at, Place(root, path));
    v :| v in at && at[v] == Place(root, path);
    assert Seen(n, at, after, v);
    assert [] + path == path;
    WalkFinds(n, kids, at, root, v, path, post);
  }

  /** What the bytes of a header mean: byte 156 tells directories, and octal text at 124 how many bytes follow the block. */
  lemma HeaderMeans(h: string, digits: string)
    requires EntryOk(h) && 0 < |digits| <= 11 && h[124..124 + |digits|] == digits && h[124 + |digits|] == '\0' && Numerals.AllDigits(digits, 8)
    ensures var n := Numerals.Value(digits, 8);
      && 0 <= n && Advance(SizeOf(h)) == 512 + (n + 511) / 512 * 512 <= |h|
      && ContentOf(ItemOf(h)) == if h[156] == '5' then Content(Dir, "") else Content(File, h[512..512 + n])
  {
    OctalSize(h, digits);
    Numerals.ValueIsNatural(digits, 8);
  }

  /**
    The name an entry is spelled with, behind a slash, is the name it is found under: as a
    directory if byte 156 of its header is '5', else as a file with the bytes behind the header.
   */
  lemma EntryResolves(n: Nodes, kids: Kids, at: Places, after: View, mounts: seq<nat>, h: string, i: nat, pre: string, path: seq<string>, post: string)
    requires TreeOk(n, kids, at) && Views(n, at, after) && mounts != [] && mounts[0] in n && at[mounts[0]] == Place(mounts[0], [])
    requires ArchiveOk(h) && i < |Items(h)| && Archived(after, mounts[0], Items(h)[i]) && SpelledIn(HeaderOf(h, i), pre, path, post)
    ensures |HeaderOf(h, i)| >= 512 && Items(h)[i].path == path
    ensures var g, v := HeaderOf(h, i), WalkMounts(n, kids, mounts, Joined(path) + post);
      && v in n && Content(n[v].kind, n[v].bytes) == ContentOf(Items(h)[i])
      && (g[156] == '5' ==> n[v].kind == Dir && n[v].bytes == "") && (g[156] != '5' ==> n[v].kind == File)
  {
    ItemAt(h, i);
    SpelledPath(HeaderOf(h, i), pre, path, post);
    var v := ItemResolves(n, kids, at, after, mounts[0], Items(h)[i], post);
  }

  /** The bytes found for a file with its size in octal at byte 124. */
  lemma ResolvedBytes(h: string, i: nat, digits: string)
    requires ArchiveOk(h) && i < |Items(h)|
    requires var g := HeaderOf(h, i);
      |g| >= 512 && 0 < |digits| <= 11 && g[124..124 + |digits|] == digits && g[124 + |digits|] == '\0' && Numerals.AllDigits(digits, 8)
    ensures var g, size := HeaderOf(h, i), Numerals.Value(digits, 8);
      0 <= size <= |g| - 512 && (g[156] != '5' ==> ContentOf(Items(h)[i]).bytes == g[512..512 + size])
  {
    ItemAt(h, i);
    HeaderMeans(HeaderOf(h, i), digits);
  }
}
