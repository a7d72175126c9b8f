/** strtok on a buffer of characters; pointers are indices into it, -1 is NULL. */
module Tokenizing {
  import opened Ustar

  /** From `i` on, the C string `t` stands unchanged in the buffer, beginning at `base`. */
  ghost predicate TextAt(d: string, base: nat, t: string, i: nat)
  {
    i <= |t| && base + |t| < |d| && d[base + |t|] == '\0' && '\0' !in t && d[base + i..base + |t|] == t[i..]
  }

  lemma CharAt(d: string, base: nat, t: string, i: nat, j: nat)
    requires TextAt(d, base, t, i) && i <= j <= |t|
    ensures j < |t| ==> d[base + j] == t[j] != '\0'
    ensures j == |t| ==> d[base + j] == '\0'
  {
    assert j < |t| ==> d[base + i..base + |t|][j - i] == t[i..][j - i];
  }

  class Tokenizer {
    const data: array<char>
    var last: int

    // The string `last` points into, where it begins, and how far it has been split.
    ghost var text: string
    ghost var base: nat
    ghost var pos: nat

    ghost predicate Valid()
      reads this, data
    {
      last == -1 || (last == base + pos && TextAt(data[..], base, text, pos))
    }

    /** Splitting on would find no name. */
    ghost predicate Exhausted()
      reads this
    {
      last == -1 || (pos <= |text| && SpanEnd(text, pos, true) == |text|)
    }

    constructor (d: array<char>)
      ensures data == d && last == -1 && Valid() && Exhausted()
    {
      data, last, text, base, pos := d, -1, "", 0, 0;
    }

    /** strspn for slashes, strcspn for the rest */
    method ScanSpan(str: nat, slashes: bool, ghost b: nat, ghost t: string, ghost i: nat) returns (count: nat)
      requires TextAt(data[..], b, t, i) && str == b + i
      ensures i + count == SpanEnd(t, i, slashes)
    {
      count := 0;
      CharAt(data[..], b, t, i, i);
      while data[str + count] != '\0' && (data[str + count] == '/') == slashes
        invariant i + count <= |t|
        invariant forall j :: i <= j < i + count ==> (t[j] == '/') == slashes
        invariant i + count < |t| ==> data[str + count] == t[i + count] != '\0'
        invariant i + count == |t| ==> data[str + count] == '\0'
        decreases |t| - i - count
      {
        count := count + 1;
        CharAt(data[..], b, t, i, i + count);
      }
      SpanEndIs(t, i, i + count, slashes);
    }

    /**
      strtok with "/" as its only delimiter.  A call with a string `t` starts on it, a call
      with NULL goes on behind the name found last.
     */
    method Strtok(str: int, ghost t: string) returns (token: int)
      requires Valid() && (str == -1 || (0 <= str && TextAt(data[..], str, t, 0)))
      modifies this, data
      ensures Valid()
      ensures token == -1 ==>
        && data[..] == old(data[..]) && last == old(last) && text == old(text) && base == old(base) && pos == old(pos)
        && (str == -1 ==> old(Exhausted())) && (str != -1 ==> Tokens(t, 0) == [])
      ensures token != -1 && str != -1 ==> base == str && text == t && Found(t, 0, token, old(data[..]))
      ensures token != -1 && str == -1 ==>
        old(last) != -1 && base == old(base) && text == old(text) && Found(text, old(pos), token, old(data[..]))
    {
      if str != -1 {
        token := CutNext(str, str, t, 0);
      } else if last == -1 {
        token := -1;
      } else {
        token := CutNext(last, base, text, pos);
      }
    }

    /** Skips slashes and cuts the name behind them; -1 when there is none. */
    method CutNext(s: nat, ghost b: nat, ghost t: string, ghost i: nat) returns (token: int)
      requires Valid() && TextAt(data[..], b, t, i) && s == b + i
      modifies this, data
      ensures Valid() && (token == -1 <==> SpanEnd(t, i, true) == |t|)
      ensures token == -1 ==> data[..] == old(data[..]) && last == old(last) && text == old(text) && base == old(base) && pos == old(pos)
      ensures token != -1 ==> base == b && text == t && Found(t, i, token, old(data[..]))
    {
      var skip := ScanSpan(s, true, b, t, i);
      CharAt(data[..], b, t, i, i + skip);
      if data[s + skip] == '\0' {
        return -1;
      }
      token := s + skip;
      CutName(token, b, t, i);
    }

    /** The name at `token` was found behind position `i` of `t` and cut off. */
    ghost predicate Found(t: string, i: nat, token: int, before: string)
      reads this, data
    {
      && last != -1 && i <= |t| && SpanEnd(t, i, true) < |t| && text == t && pos == Past(t, NameEnd(t, i))
      && token == base + SpanEnd(t, i, true) && base + |t| < |before| == data.Length
      && data[..] == before[base + NameEnd(t, i) := '\0']
      && TextAt(data[..], token, t[SpanEnd(t, i, true)..NameEnd(t, i)], 0)
    }

    /** Ends the name at `token` and remembers where to go on. */
    method CutName(token: nat, ghost b: nat, ghost t: string, ghost i: nat)
      requires TextAt(data[..], b, t, i) && token == b + SpanEnd(t, i, true) && SpanEnd(t, i, true) < |t|
      modifies this, data
      ensures Valid() && base == b && Found(t, i, token, old(data[..]))
    {
      ghost var start := SpanEnd(t, i, true);
      LaterText(data[..], b, t, i, start);
      var length := ScanSpan(token, false, b, t, start);
      var end := token + length;
      CharAt(data[..], b, t, i, start + length);
      CutText(data[..], b, t, i);
      if data[end] != '\0' {
        data[end] := '\0';
        end := end + 1;
      }
      last := end;
      base, text, pos := b, t, Past(t, NameEnd(t, i));
      assert data[..] == old(data[..])[b + NameEnd(t, i) := '\0'];
    }
  }

  lemma LaterText(d: string, base: nat, t: string, i: nat, j: nat)
    requires TextAt(d, base, t, i) && i <= j <= |t|
    ensures TextAt(d, base, t, j)
  {
    assert d[base + j..base + |t|] == d[base + i..base + |t|][j - i..];
    assert t[j..] == t[i..][j - i..];
  }

  /** A terminator at the end of the name leaves the name as one string and the rest as another. */
  lemma CutText(d: string, base: nat, t: string, i: nat)
    requires TextAt(d, base, t, i) && SpanEnd(t, i, true) < |t|
    ensures var start, end := SpanEnd(t, i, true), NameEnd(t, i);
      && TextAt(d[base + end := '\0'], base + start, t[start..end], 0)
      && TextAt(d[base + end := '\0'], base, t, Past(t, end))
      && (end == |t| ==> d[base + end := '\0'] == d)
  {
    var start, end := SpanEnd(t, i, true), NameEnd(t, i);
    LaterText(d, base, t, i, start);
    var d' := d[base + end := '\0'];
    assert d'[base + start..base + end] == d[base + start..base + |t|][..end - start];
    assert t[start..end] == t[start..][..end - start];
    LaterText(d, base, t, i, Past(t, end));
    assert d'[base + Past(t, end)..base + |t|] == d[base + Past(t, end)..base + |t|];
  }
}

/** ramfs_init_ustar: the archive becomes a tree of vnodes. */
module Ramfs {
  import opened Machine
  import opened VnodeTree
  import opened Vfs
  import opened Ustar
  import opened Tokenizing

  /** The C string at `s`. */
  method ReadText(data: array<char>, s: nat) returns (t: string)
    requires s <= data.Length
    ensures t == CText(data[..], s)
  {
    var i := s;
    while i < data.Length && data[i] != '\0'
      invariant s <= i <= data.Length
      invariant forall j :: s <= j < i ==> data[j] != '\0'
    {
      i := i + 1;
    }
    CTextUpTo(data[..], s, i - s);
    t := data[s..i];
  }

  lemma TextIsRead(d: string, base: nat, t: string)
    requires TextAt(d, base, t, 0)
    ensures CText(d, base) == t
  {
    assert d[base..base + |t|] == t;
    assert forall j :: base <= j < base + |t| ==> d[j] == t[j - base];
    CTextUpTo(d, base, |t|);
  }

  ghost predicate SameOutside(before: string, after: string, lo: nat, hi: nat)
  {
    |after| == |before| && forall k :: 0 <= k < |before| && (k < lo || hi <= k) ==> after[k] == before[k]
  }

  /** The tokenizer stands behind name `k` of the path spelled by `t`, which `token` points to. */
  ghost predicate AtName(tk: Tokenizer, t: string, name: nat, k: nat, token: int)
    reads tk, tk.data
  {
    && tk.Valid() && tk.last != -1 && tk.text == t && tk.base == name && tk.pos <= |t|
    && k < |Tokens(t, 0)| && Tokens(t, 0)[k + 1..] == Tokens(t, tk.pos)
    && token >= 0 && TextAt(tk.data[..], token, Tokens(t, 0)[k], 0)
  }

  method FirstName(tk: Tokenizer, name: nat, ghost t: string) returns (token: int)
    requires tk.Valid() && TextAt(tk.data[..], name, t, 0) && tk.Exhausted()
    modifies tk, tk.data
    ensures tk.Valid() && SameOutside(old(tk.data[..]), tk.data[..], name, name + |t|)
    ensures if token == -1 then Tokens(t, 0) == [] && tk.Exhausted() else AtName(tk, t, name, 0, token)
  {
    token := tk.Strtok(name, t);
    if token != -1 {
      assert Tokens(t, 0)[1..] == Tokens(t, tk.pos);
    }
  }

  method NextName(tk: Tokenizer, ghost t: string, ghost name: nat, ghost k: nat, ghost current: int) returns (token: int)
    requires AtName(tk, t, name, k, current)
    modifies tk, tk.data
    ensures tk.Valid() && SameOutside(old(tk.data[..]), tk.data[..], name, name + |t|)
    ensures if token == -1 then k + 1 == |Tokens(t, 0)| && tk.Exhausted() else AtName(tk, t, name, k + 1, token)
  {
    ghost var pos := tk.pos;
    ghost var path := Tokens(t, 0);
    token := tk.Strtok(-1, "");
    if token != -1 {
      assert path[k + 1..] == [t[SpanEnd(t, pos, true)..NameEnd(t, pos)]] + Tokens(t, tk.pos);
      assert path[k + 1] == path[k + 1..][0];
      assert path[k + 2..] == path[k + 1..][1..];
    }
  }

  /** All places above a place in view are directories in view. */
  lemma AboveInView(n: Nodes, kids: Kids, at: Places, view: View, root: nat, path: seq<string>, k: nat)
    requires TreeOk(n, kids, at) && Views(n, at, view) && Place(root, path) in view && k <= |path|
    ensures Place(root, path[..k]) in view && (k < |path| ==> HasDir(view, root, path[..k]))
  {
    assert Inhabited(at, Place(root, path));
    var v :| v in at && at[v] == Place(root, path);
    var w := Ancestor(n, kids, at, v, k);
    assert Seen(n, at, view, w);
  }

  /** A name is missing below a node exactly when its place is not in view. */
  lemma MissingName(n: Nodes, kids: Kids, at: Places, view: View, p: nat, name: string)
    requires TreeOk(n, kids, at) && Views(n, at, view) && p in n
    ensures Named(n, kids[p], name) == 0 <==> Place(at[p].root, at[p].path + [name]) !in view
  {
    NamedIsPlace(n, kids, at, p, name);
    var place := Place(at[p].root, at[p].path + [name]);
    if Named(n, kids[p], name) != 0 {
      assert Seen(n, at, view, Named(n, kids[p], name));
    } else {
      assert place in view ==> Inhabited(at, place);
    }
  }

  /** When the item can be put in place, only its last name can be missing. */
  lemma MissingIsLast(n: Nodes, kids: Kids, at: Places, view: View, root: nat, item: Item, k: nat)
    requires TreeOk(n, kids, at) && Views(n, at, view) && CanApply(view, root, item)
    requires k < |item.path| && Place(root, item.path[..k + 1]) !in view
    ensures k + 1 == |item.path| && HasDir(view, root, item.path[..k]) && Place(root, item.path) !in view
  {
    var path := item.path;
    if Place(root, path) in view {
      AboveInView(n, kids, at, view, root, path, k + 1);
    } else if k + 1 < |path| {
      assert Front(path)[..k + 1] == path[..k + 1];
      AboveInView(n, kids, at, view, root, Front(path), k + 1);
    } else {
      assert path[..k + 1] == path;
    }
  }

  /** A node at each end of the walk so far. */
  ghost predicate AtNode(fs: FileSystem, root: nat, path: seq<string>, k: nat, cur: nat)
    reads fs
  {
    k <= |path| && cur in fs.nodes && cur in fs.at && fs.at[cur] == Place(root, path[..k])
  }

  ghost predicate PlacesKept(before: Places, after: Places)
  {
    forall v :: v in before ==> v in after && after[v] == before[v]
  }

  /** One new node, as the view sees it. */
  method AddNode(fs: FileSystem, parent: nat, name: string, kind: Kind, ghost view: View) returns (c: nat, ghost after: View)
    requires fs.Valid() && Views(fs.nodes, fs.at, view) && parent in fs.nodes && fs.nodes[parent].kind == Dir
    requires Place(fs.at[parent].root, fs.at[parent].path + [name]) !in view
    modifies fs`nodes, fs`nextAddress, fs`kids, fs`at
    ensures fs.Valid() && Views(fs.nodes, fs.at, after) && c in fs.nodes && fs.nodes[c].kind == kind
    ensures PlacesKept(old(fs.at), fs.at)
    ensures fs.at[c] == Place(old(fs.at)[parent].root, old(fs.at)[parent].path + [name])
    ensures after == view[fs.at[c] := Content(kind, "")]
  {
    MissingName(fs.nodes, fs.kids, fs.at, view, parent, name);
    c := fs.Create(parent, name, kind, true);
    AddExtendsView(old(fs.nodes), old(fs.kids), old(fs.at), view, parent, c, name, kind);
    WithNodeAt(old(fs.nodes), old(fs.kids), old(fs.at), parent, c, name, kind, c);
    after := view[fs.at[c] := Content(kind, "")];
  }

  /** The next name is looked up below `cur`; a directory that is missing is made. */
  method EnterName(fs: FileSystem, tk: Tokenizer, cur: nat, token: int, root: nat, dir: bool, ghost item: Item,
                   ghost t: string, ghost name: nat, ghost k: nat, ghost view: View)
    returns (subdir: nat, ghost after: View)
    requires fs.Valid() && Views(fs.nodes, fs.at, view) && CanApply(view, root, item)
    requires dir == item.dir && item.path == Tokens(t, 0) && AtName(tk, t, name, k, token) && AtNode(fs, root, item.path, k, cur)
    modifies fs`nodes, fs`nextAddress, fs`kids, fs`at
    ensures fs.Valid() && Views(fs.nodes, fs.at, after)
    ensures PlacesKept(old(fs.at), fs.at)
    ensures subdir != 0 ==>
      after == view && AtNode(fs, root, item.path, k + 1, subdir) && (k + 1 == |item.path| ==> Place(root, item.path) in view)
    ensures subdir == 0 ==> k + 1 == |item.path| && Place(root, item.path) !in view
    ensures subdir == 0 && item.dir ==> after == view[Place(root, item.path) := Content(Dir, "")]
    ensures subdir == 0 && !item.dir ==> after == view && fs.nodes[cur].kind == Dir && AtNode(fs, root, item.path, k, cur)
  {
    ghost var path := item.path;
    after := view;
    TextIsRead(tk.data[..], token, path[k]);
    var part := ReadText(tk.data, token);
    subdir := fs.Lookup(cur, part);
    assert path[..k + 1] == path[..k] + [part];
    MissingName(fs.nodes, fs.kids, fs.at, view, cur, part);
    NamedIsPlace(fs.nodes, fs.kids, fs.at, cur, part);
    assert k + 1 == |path| ==> path[..k + 1] == path;
    if subdir == 0 {
      MissingIsLast(fs.nodes, fs.kids, fs.at, view, root, item, k);
      assert Seen(fs.nodes, fs.at, view, cur);
      if dir {
        var c;
        c, after := AddNode(fs, cur, part, Dir, view);
      }
    }
  }

  /** What the names alone do: directories are entered or made, files are left for later. */
  ghost function AfterNames(view: View, root: nat, item: Item): View
  {
    if item.dir then Apply(view, root, item) else view
  }

  ghost predicate Settled(view: View, root: nat, item: Item)
  {
    item.dir || item.path == [] || Place(root, item.path) in view
  }

  /** The file is missing: `token` points to its name, and `parent` is the directory it belongs in. */
  ghost predicate FileMissing(fs: FileSystem, tk: Tokenizer, root: nat, item: Item, parent: nat, token: int)
    reads fs, tk, tk.data
  {
    && !item.dir && item.path != [] && AtNode(fs, root, item.path, |item.path| - 1, parent) && fs.nodes[parent].kind == Dir
    && token >= 0 && TextAt(tk.data[..], token, item.path[|item.path| - 1], 0) && Plain(item.path[|item.path| - 1])
  }

  /** One turn of the loop over the names; `missing` when it is left at a file that is not there. */
  method TakeName(fs: FileSystem, tk: Tokenizer, cur: nat, token: int, root: nat, dir: bool, ghost item: Item,
                  ghost t: string, ghost name: nat, ghost k: nat, ghost view: View)
    returns (missing: bool, parent: nat, next: int, ghost after: View)
    requires fs.Valid() && Views(fs.nodes, fs.at, view) && CanApply(view, root, item) && (item.bytes == "" || !dir)
    requires dir == item.dir && item.path == Tokens(t, 0) && AtName(tk, t, name, k, token) && AtNode(fs, root, item.path, k, cur)
    modifies fs`nodes, fs`nextAddress, fs`kids, fs`at, tk, tk.data
    ensures fs.Valid() && Views(fs.nodes, fs.at, after)
    ensures PlacesKept(old(fs.at), fs.at)
    ensures tk.Valid() && SameOutside(old(tk.data[..]), tk.data[..], name, name + |t|)
    ensures missing ==> after == view && FileMissing(fs, tk, root, item, parent, next) && Place(root, item.path) !in view
    ensures !missing && next == -1 ==> tk.Exhausted() && Settled(view, root, item) && after == AfterNames(view, root, item)
    ensures !missing && next != -1 ==>
      after == view && k + 1 < |item.path| && AtName(tk, t, name, k + 1, next) && AtNode(fs, root, item.path, k + 1, parent)
  {
    var subdir;
    subdir, after := EnterName(fs, tk, cur, token, root, dir, item, t, name, k, view);
    if subdir == 0 && !dir {
      TokensArePlain(t, 0);
      return true, cur, token, after;
    }
    missing, parent := false, subdir;
    next := NextName(tk, t, name, k, token);
  }

  /** Walks down the names of an item. */
  method EnterPath(fs: FileSystem, tk: Tokenizer, name: nat, dir: bool, root: nat, ghost item: Item, ghost t: string, ghost view: View)
    returns (parent: nat, token: int, ghost after: View)
    requires fs.Valid() && Views(fs.nodes, fs.at, view) && CanApply(view, root, item) && AtNode(fs, root, item.path, 0, root)
    requires tk.Valid() && tk.Exhausted() && TextAt(tk.data[..], name, t, 0) && item.path == Tokens(t, 0) && dir == item.dir
    requires item.bytes == "" || !dir
    modifies fs`nodes, fs`nextAddress, fs`kids, fs`at, tk, tk.data
    ensures fs.Valid() && Views(fs.nodes, fs.at, after) && after == AfterNames(view, root, item)
    ensures PlacesKept(old(fs.at), fs.at)
    ensures tk.Valid() && SameOutside(old(tk.data[..]), tk.data[..], name, name + |t|)
    ensures if token == -1 then tk.Exhausted() && Settled(view, root, item)
            else FileMissing(fs, tk, root, item, parent, token) && Place(root, item.path) !in view
  {
    ghost var k := 0;
    token := FirstName(tk, name, t);
    parent, after := root, view;
    while token != -1
      invariant fs.Valid() && Views(fs.nodes, fs.at, after) && tk.Valid()
      invariant SameOutside(old(tk.data[..]), tk.data[..], name, name + |t|)
      invariant PlacesKept(old(fs.at), fs.at)
      invariant token != -1 ==> after == view && AtName(tk, t, name, k, token) && AtNode(fs, root, item.path, k, parent)
      invariant token == -1 ==> tk.Exhausted() && Settled(view, root, item) && after == AfterNames(view, root, item)
      decreases if token == -1 then 0 else |item.path| - k
    {
      var missing;
      missing, parent, token, after := TakeName(fs, tk, parent, token, root, dir, item, t, name, k, view);
      if missing {
        return;
      }
      k := k + 1;
    }
  }

  /** A name without slashes is its own only token. */
  lemma OneName(part: string)
    requires '/' !in part
    ensures SpanEnd(part, 0, true) == 0 && NameEnd(part, 0) == |part| && SpanEnd(part, |part|, true) == |part|
  {
    SpanEndIs(part, 0, |part|, false);
  }

  /** The last strtok of an entry gives back the name it is called with, or NULL. */
  method FileName(tk: Tokenizer, token: int, ghost part: string) returns (filename: int)
    requires tk.Valid()
    requires if token == -1 then tk.Exhausted() else token >= 0 && TextAt(tk.data[..], token, part, 0) && Plain(part)
    modifies tk, tk.data
    ensures tk.Valid() && tk.Exhausted() && tk.data[..] == old(tk.data[..])
    ensures filename == token && (token != -1 ==> token <= tk.data.Length && CText(tk.data[..], token) == part)
  {
    if token != -1 {
      OneName(part);
      TextIsRead(tk.data[..], token, part);
    }
    filename := tk.Strtok(token, part);
  }

  /** A new file with its bytes, as the view sees it. */
  method AddFile(fs: FileSystem, parent: nat, text: string, contents: string, ghost root: nat, ghost item: Item, ghost view: View)
    returns (ghost after: View)
    requires fs.Valid() && Views(fs.nodes, fs.at, view) && !item.dir && item.bytes == contents && item.path != []
    requires AtNode(fs, root, item.path, |item.path| - 1, parent) && fs.nodes[parent].kind == Dir
    requires text == item.path[|item.path| - 1] && Place(root, item.path) !in view
    modifies fs`nodes, fs`nextAddress, fs`kids, fs`at
    ensures fs.Valid() && Views(fs.nodes, fs.at, after) && after == Apply(view, root, item)
    ensures PlacesKept(old(fs.at), fs.at)
  {
    assert item.path == item.path[..|item.path| - 1] + [text];
    var file;
    file, after := AddNode(fs, parent, text, File, view);
    SetBytesView(fs.nodes, fs.kids, fs.at, after, file, contents);
    fs.SetBytes(file, contents);
    assert after[fs.at[file] := Content(File, contents)] == Apply(view, root, item);
    after := Apply(view, root, item);
  }

  /** A file that is not there yet is made and given its bytes. */
  method PlaceFile(fs: FileSystem, tk: Tokenizer, parent: nat, token: int, contents: string, ghost root: nat, ghost item: Item, ghost view: View)
    returns (ghost after: View)
    requires fs.Valid() && Views(fs.nodes, fs.at, view) && tk.Valid() && !item.dir && item.bytes == contents
    requires if token == -1 then tk.Exhausted() && Settled(view, root, item)
             else FileMissing(fs, tk, root, item, parent, token) && Place(root, item.path) !in view
    modifies fs`nodes, fs`nextAddress, fs`kids, fs`at, tk, tk.data
    ensures fs.Valid() && Views(fs.nodes, fs.at, after) && after == Apply(view, root, item)
    ensures PlacesKept(old(fs.at), fs.at)
    ensures tk.Valid() && tk.Exhausted() && tk.data[..] == old(tk.data[..])
  {
    after := view;
    var filename := FileName(tk, token, if token == -1 then "" else item.path[|item.path| - 1]);
    if filename != -1 {
      var text := ReadText(tk.data, filename);
      after := AddFile(fs, parent, text, contents, root, item, view);
    }
  }

  // ---------- Headers ----------

  lemma TextOfSuffix(d: string, offset: nat, i: nat)
    requires offset + i <= |d|
    ensures CText(d[offset..], i) == CText(d, offset + i)
  {
    var t := CText(d, offset + i);
    var h := d[offset..];
    assert forall j :: i <= j < i + |t| ==> h[j] == d[offset + j] == t[j - i];
    CTextUpTo(h, i, |t|);
    assert h[i..i + |t|] == t;
  }

  /** Bytes the name is moved by. */
  ghost function Skipped(h: string): nat
  {
    if "./" <= CText(h, 0) then 2 else 0
  }

  lemma RawName(d: string, offset: nat)
    requires offset + BLOCK <= |d| && |CText(d[offset..], 0)| < NAME_SIZE
    ensures var raw := CText(d[offset..], 0); TextAt(d, offset, raw, 0) && ("./" <= raw <==> d[offset] == '.' && d[offset + 1] == '/')
  {
    var h := d[offset..];
    var raw := CText(h, 0);
    assert d[offset..offset + |raw|] == h[..|raw|] == raw;
    assert d[offset + |raw|] == h[|raw|] == '\0';
    assert d[offset] == h[0] && d[offset + 1] == h[1];
    assert |raw| >= 1 ==> raw[0] == h[0];
    assert |raw| >= 2 ==> raw[1] == h[1];
  }

  lemma TextBehind(d: string, base: nat, t: string, k: nat)
    requires TextAt(d, base, t, 0) && k <= |t|
    ensures TextAt(d, base + k, t[k..], 0)
  {
    LaterText(d, base, t, 0, k);
    assert t[k..][0..] == t[k..];
  }

  /** The entry's name stands in the buffer as a C string. */
  lemma NameStands(d: string, offset: nat)
    requires offset + BLOCK <= |d| && |CText(d[offset..], 0)| < NAME_SIZE
    ensures var h := d[offset..];
      && (Skipped(h) == 2 <==> d[offset] == '.' && d[offset + 1] == '/')
      && TextAt(d, offset + Skipped(h), EntryName(h), 0) && |EntryName(h)| + Skipped(h) < NAME_SIZE
      && CText(d, offset + Skipped(h)) == EntryName(h)
  {
    var h := d[offset..];
    RawName(d, offset);
    TextBehind(d, offset, CText(h, 0), Skipped(h));
    TextIsRead(d, offset + Skipped(h), EntryName(h));
  }

  method ReadOctal(data: array<char>, s: nat) returns (value: int)
    requires s <= data.Length
    ensures value == Strtol.Meaning(CText(data[..], s), 8)
  {
    var text := ReadText(data, s);
    var end;
    value, end := Strtol.Strtol(text, 8);
  }

  /** The size field; it fits the 32 bits it is kept in. */
  method ReadSize(data: array<char>, offset: nat, ghost h: string) returns (size: nat)
    requires offset + SIZE_AT <= data.Length && h == data[..][offset..] && 0 <= SizeOf(h) < U32
    ensures size == SizeOf(h)
  {
    TextOfSuffix(data[..], offset, SIZE_AT);
    var value := ReadOctal(data, offset + SIZE_AT);
    size := value % U32;
  }

  /** The name behind a leading "./"; nothing is to be done for an empty name or ".". */
  method ReadEntryName(data: array<char>, offset: nat, ghost h: string) returns (name: nat, skip: bool)
    requires offset + BLOCK <= data.Length && h == data[..][offset..] && |CText(h, 0)| < NAME_SIZE
    ensures skip ==> PathOf(h) == []
    ensures !skip ==> PathOf(h) == Tokens(EntryName(h), 0) && TextAt(data[..], name, EntryName(h), 0)
    ensures offset <= name && name + |EntryName(h)| < offset + NAME_SIZE
  {
    NameStands(data[..], offset);
    name := offset;
    if data[offset] == '.' && data[offset + 1] == '/' {
      name := name + 2;
    }
    var text := ReadText(data, name);
    skip := text == "" || text == ".";
  }

  /** The bytes behind the header. */
  method ReadContents(data: array<char>, offset: nat, size: nat, ghost h: string) returns (contents: string)
    requires offset <= data.Length && h == data[..][offset..] && BLOCK + size <= |h|
    ensures contents == h[BLOCK..BLOCK + size]
  {
    contents := data[offset + BLOCK..offset + BLOCK + size];
  }

  lemma RoundedUp(size: nat)
    requires size + 511 < U32
    ensures BLOCK + (size + 511) % U32 / 512 * 512 == Advance(size)
  {
  }

  /** One entry; gives the distance to the next header. */
  method LoadEntry(fs: FileSystem, tk: Tokenizer, offset: nat, root: nat, ghost h: string, ghost view: View)
    returns (advance: nat, ghost after: View)
    requires fs.Valid() && Views(fs.nodes, fs.at, view) && root in fs.nodes && fs.at[root] == Place(root, [])
    requires tk.Valid() && tk.Exhausted() && offset <= tk.data.Length && h == tk.data[..][offset..]
    requires EntryOk(h) && CanApply(view, root, ItemOf(h))
    modifies fs`nodes, fs`nextAddress, fs`kids, fs`at, tk, tk.data
    ensures fs.Valid() && Views(fs.nodes, fs.at, after) && after == Apply(view, root, ItemOf(h))
    ensures PlacesKept(old(fs.at), fs.at)
    ensures tk.Valid() && tk.Exhausted() && SameOutside(old(tk.data[..]), tk.data[..], offset, offset + NAME_SIZE)
    ensures advance == Advance(SizeOf(h))
  {
    var size := ReadSize(tk.data, offset, h);
    var dir := tk.data[offset + TYPE_AT] == '5';
    var name, skip := ReadEntryName(tk.data, offset, h);
    after := view;
    advance := BLOCK + (size + 511) % U32 / 512 * 512;
    RoundedUp(size);
    if !skip {
      var contents := "";
      if !dir {
        contents := ReadContents(tk.data, offset, size, h);
      }
      after := LoadItem(fs, tk, name, dir, contents, root, ItemOf(h), EntryName(h), view);
    }
  }

  /** The directories or the file of one item. */
  method LoadItem(fs: FileSystem, tk: Tokenizer, name: nat, dir: bool, contents: string, root: nat,
                  ghost item: Item, ghost t: string, ghost view: View)
    returns (ghost after: View)
    requires fs.Valid() && Views(fs.nodes, fs.at, view) && CanApply(view, root, item) && root in fs.nodes && fs.at[root] == Place(root, [])
    requires tk.Valid() && tk.Exhausted() && TextAt(tk.data[..], name, t, 0)
    requires item == Item(Tokens(t, 0), dir, contents) && (dir ==> contents == "")
    modifies fs`nodes, fs`nextAddress, fs`kids, fs`at, tk, tk.data
    ensures fs.Valid() && Views(fs.nodes, fs.at, after) && after == Apply(view, root, item)
    ensures PlacesKept(old(fs.at), fs.at)
    ensures tk.Valid() && tk.Exhausted() && SameOutside(old(tk.data[..]), tk.data[..], name, name + |t|)
  {
    var parent, token;
    parent, token, after := EnterPath(fs, tk, name, dir, root, item, t, view);
    if !dir {
      after := PlaceFile(fs, tk, parent, token, contents, root, item, after);
    }
  }

  /** One turn of the loop over the archive. */
  method LoadNext(fs: FileSystem, tk: Tokenizer, offset: nat, root: nat, ghost rest: string, ghost view: View)
    returns (advance: nat, ghost after: View)
    requires fs.Valid() && Views(fs.nodes, fs.at, view) && root in fs.nodes && fs.at[root] == Place(root, [])
    requires tk.Valid() && tk.Exhausted() && offset <= tk.data.Length && rest == tk.data[..][offset..]
    requires rest != "" && rest[0] != '\0' && ArchiveOk(rest) && CanLoad(view, root, Items(rest))
    modifies fs`nodes, fs`nextAddress, fs`kids, fs`at, tk, tk.data
    ensures fs.Valid() && Views(fs.nodes, fs.at, after) && PlacesKept(old(fs.at), fs.at)
    ensures tk.Valid() && tk.Exhausted()
    ensures 0 < advance <= |rest| && tk.data[..][offset + advance..] == rest[advance..]
    ensures ArchiveOk(rest[advance..]) && CanLoad(after, root, Items(rest[advance..]))
    ensures LoadAll(view, root, Items(rest)) == LoadAll(after, root, Items(rest[advance..]))
  {
    ItemsStep(rest, view, root);
    advance, after := LoadEntry(fs, tk, offset, root, rest, view);
    RestKept(old(tk.data[..]), tk.data[..], offset, advance);
  }

  /**
    ramfs_init_ustar.  The buffer is changed where names are cut, and the tree becomes what
    the archive's items make of it.
   */
  method InitUstar(fs: FileSystem, data: array<char>, root: nat, ghost view: View) returns (ghost after: View)
    requires fs.Valid() && Views(fs.nodes, fs.at, view) && root in fs.nodes && fs.at[root] == Place(root, [])
    requires data.Length >= BLOCK && ArchiveOk(data[..]) && CanLoad(view, root, Items(data[..]))
    modifies fs`nodes, fs`nextAddress, fs`kids, fs`at, data
    ensures fs.Valid() && Views(fs.nodes, fs.at, after)
    ensures after == LoadAll(view, root, old(Items(data[..]))) && PlacesKept(old(fs.at), fs.at)
    ensures WellOrdered(view, root, old(Items(data[..]))) ==> ExactlyAdded(view, after, root, old(Items(data[..])))
  {
    if WellOrdered(view, root, Items(data[..])) {
      WellOrderedLoads(view, root, Items(data[..]));
    }
    var tk := new Tokenizer(data);
    after := LoadEntries(fs, tk, root, data[..], view);
  }

  /** Loading an archive and looking an entry up by the name it is spelled with finds its bytes. */
  method LoadAndFind(fs: FileSystem, data: array<char>, mounts: seq<nat>, ghost view: View, name: string,
                     ghost i: nat, ghost pre: string, ghost path: seq<string>, ghost post: string, ghost digits: string) returns (v: nat)
    requires fs.Valid() && Views(fs.nodes, fs.at, view) && mounts != [] && forall m :: m in mounts ==> m in fs.nodes
    requires fs.at[mounts[0]] == Place(mounts[0], [])
    requires data.Length >= BLOCK && ArchiveOk(data[..]) && WellOrdered(view, mounts[0], Items(data[..]))
    requires i < |Items(data[..])| && SpelledIn(HeaderOf(data[..], i), pre, path, post) && name == Joined(path) + post
    modifies fs`nodes, fs`nextAddress, fs`kids, fs`at, data
    ensures fs.Valid() && v in fs.nodes && Content(fs.nodes[v].kind, fs.nodes[v].bytes) == ContentOf(old(Items(data[..])[i]))
    ensures var g := old(HeaderOf(data[..], i));
      && |g| >= 512 && (g[156] == '5' ==> fs.nodes[v].kind == Dir && fs.nodes[v].bytes == "") && (g[156] != '5' ==> fs.nodes[v].kind == File)
      && (g[156] != '5' && 0 < |digits| <= 11 && g[124..124 + |digits|] == digits && g[124 + |digits|] == '\0' && Numerals.AllDigits(digits, 8) ==>
            0 <= Numerals.Value(digits, 8) <= |g| - 512 && fs.nodes[v].bytes == g[512..512 + Numerals.Value(digits, 8)])
  {
    ghost var h := data[..];
    WellOrderedLoads(view, mounts[0], Items(h));
    ghost var after := InitUstar(fs, data, mounts[0], view);
    assert Archived(after, mounts[0], Items(h)[i]);
    EntryResolves(fs.nodes, fs.kids, fs.at, after, mounts, h, i, pre, path, post);
    ghost var g := HeaderOf(h, i);
    if 0 < |digits| <= 11 && g[124..124 + |digits|] == digits && g[124 + |digits|] == '\0' && Numerals.AllDigits(digits, 8) {
      ResolvedBytes(h, i, digits);
    }
    assert ("/" + name)[1..] == name;
    v := fs.LazyLookup(mounts, "/" + name);
  }

  method LoadEntries(fs: FileSystem, tk: Tokenizer, root: nat, ghost d: string, ghost view: View) returns (ghost after: View)
    requires fs.Valid() && Views(fs.nodes, fs.at, view) && root in fs.nodes && fs.at[root] == Place(root, [])
    requires tk.Valid() && tk.Exhausted() && d == tk.data[..] && ArchiveOk(d) && CanLoad(view, root, Items(d))
    modifies fs`nodes, fs`nextAddress, fs`kids, fs`at, tk, tk.data
    ensures fs.Valid() && Views(fs.nodes, fs.at, after) && after == LoadAll(view, root, Items(d)) && PlacesKept(old(fs.at), fs.at)
  {
    var offset := 0;
    after := view;
    ghost var rest := d;
    assert d[0..] == d;
    while offset < tk.data.Length
      invariant 0 <= offset <= tk.data.Length && tk.data[..][offset..] == rest
      invariant fs.Valid() && Views(fs.nodes, fs.at, after) && tk.Valid() && tk.Exhausted()
      invariant ArchiveOk(rest) && CanLoad(after, root, Items(rest))
      invariant LoadAll(after, root, Items(rest)) == LoadAll(view, root, Items(d))
      invariant PlacesKept(old(fs.at), fs.at)
    {
      if tk.data[offset] == '\0' {
        break;
      }
      var advance;
      advance, after := LoadNext(fs, tk, offset, root, rest, after);
      rest := rest[advance..];
      offset := offset + advance;
    }
  }

  lemma RestKept(before: string, after: string, offset: nat, k: nat)
    requires SameOutside(before, after, offset, offset + NAME_SIZE) && NAME_SIZE <= k && offset + k <= |before|
    ensures after[offset + k..] == before[offset..][k..]
  {
  }

  lemma ItemsStep(rest: string, view: View, root: nat)
    requires rest != "" && rest[0] != '\0' && ArchiveOk(rest) && CanLoad(view, root, Items(rest))
    ensures EntryOk(rest) && CanApply(view, root, ItemOf(rest))
    ensures var next, after := rest[Advance(SizeOf(rest))..], Apply(view, root, ItemOf(rest));
      && ArchiveOk(next) && CanLoad(after, root, Items(next))
      && LoadAll(view, root, Items(rest)) == LoadAll(after, root, Items(next))
  {
    assert Items(rest)[1..] == Items(rest[Advance(SizeOf(rest))..]);
  }
}
