/** Trees of vnodes linked by parent, child and next pointers, and the paths that lead through them. */
module VnodeTree {
  import opened Sequences

  const NAME_MAX: nat := 255

  datatype Kind = Dir | File | Dev

  /** Pointers are addresses, 0 is NULL; a root is its own parent. */
  datatype Vnode = Vnode(parent: nat, next: nat, child: nat, kind: Kind, name: string, bytes: string)

  type Nodes = map<nat, Vnode>

  /** The children of each node, in list order. */
  type Kids = map<nat, seq<nat>>

  /** Where a node is: the root it hangs from and the names on the way. */
  datatype Place = Place(root: nat, path: seq<string>)

  type Places = map<nat, Place>

  function KidAt(ks: seq<nat>, i: nat): nat
  {
    if i < |ks| then ks[i] else 0
  }

  ghost predicate KidOk(n: Nodes, p: nat, ks: seq<nat>, i: nat)
    requires i < |ks|
  {
    ks[i] in n && ks[i] != p && n[ks[i]].parent == p && n[ks[i]].next == KidAt(ks, i + 1)
  }

  ghost predicate NamesDiffer(n: Nodes, ks: seq<nat>, i: nat, j: nat)
  {
    i < j < |ks| && ks[i] in n && ks[j] in n ==> n[ks[i]].name != n[ks[j]].name
  }

  /** The child list of `p` is `ks`, and no two children share a name. */
  ghost predicate ListOk(n: Nodes, p: nat, ks: seq<nat>)
    requires p in n
  {
    && n[p].child == KidAt(ks, 0) && (ks != [] ==> n[p].kind == Dir)
    && (forall i {:trigger KidOk(n, p, ks, i)} :: 0 <= i < |ks| ==> KidOk(n, p, ks, i))
    && (forall i, j {:trigger NamesDiffer(n, ks, i, j)} :: 0 <= i < j ==> NamesDiffer(n, ks, i, j))
  }

  ghost predicate PlaceOk(n: Nodes, kids: Kids, at: Places, v: nat)
    requires v in n && n.Keys == kids.Keys == at.Keys
  {
    if n[v].parent == v then at[v] == Place(v, [])
    else
      && n[v].parent in n && v in kids[n[v].parent]
      && at[v] == Place(at[n[v].parent].root, at[n[v].parent].path + [n[v].name])
  }

  ghost predicate TreeOk(n: Nodes, kids: Kids, at: Places)
  {
    && n.Keys == kids.Keys == at.Keys && 0 !in n
    && (forall p {:trigger ListOk(n, p, kids[p])} :: p in n ==> ListOk(n, p, kids[p]))
    && (forall v {:trigger PlaceOk(n, kids, at, v)} :: v in n ==> PlaceOk(n, kids, at, v))
  }

  /** A node is known by its place. */
  lemma {:induction false} PlaceIsUnique(n: Nodes, kids: Kids, at: Places, v: nat, w: nat)
    requires TreeOk(n, kids, at) && v in n && w in n && at[v] == at[w]
    ensures v == w
    decreases |at[v].path|
  {
    assert PlaceOk(n, kids, at, v) && PlaceOk(n, kids, at, w);
    if n[v].parent != v && n[w].parent != w {
      var p := n[v].parent;
      var above := at[p].path;
      assert at[v].path[..|above|] == above && at[w].path[..|above|] == at[n[w].parent].path;
      PlaceIsUnique(n, kids, at, p, n[w].parent);
      SameNameSameKid(n, p, kids[p], v, w);
    }
  }

  lemma SameNameSameKid(n: Nodes, p: nat, ks: seq<nat>, v: nat, w: nat)
    requires p in n && ListOk(n, p, ks) && v in ks && w in ks && v in n && w in n && n[v].name == n[w].name
    ensures v == w
  {
    var i :| 0 <= i < |ks| && ks[i] == v;
    var j :| 0 <= j < |ks| && ks[j] == w;
    assert NamesDiffer(n, ks, i, j) && NamesDiffer(n, ks, j, i);
  }

  // ---------- Lookups ----------

  /** The first of `ks` with this name. */
  function Named(n: Nodes, ks: seq<nat>, name: string): nat
  {
    if ks == [] then 0
    else if ks[0] in n && n[ks[0]].name == name then ks[0]
    else Named(n, ks[1..], name)
  }

  lemma {:induction false} NamedIsFirst(n: Nodes, ks: seq<nat>, name: string, i: nat)
    requires i <= |ks| && forall j :: 0 <= j < i ==> ks[j] in n && n[ks[j]].name != name
    ensures Named(n, ks, name) == Named(n, ks[i..], name)
  {
    if i > 0 {
      NamedIsFirst(n, ks, name, i - 1);
      assert ks[i - 1..][1..] == ks[i..];
    }
  }

  lemma {:induction false} NamedIsThere(n: Nodes, ks: seq<nat>, name: string)
    requires 0 !in n && forall j :: 0 <= j < |ks| ==> ks[j] in n
    ensures var c := Named(n, ks, name);
      if c == 0 then forall v :: v in ks ==> n[v].name != name else c in ks && c in n && n[c].name == name
  {
    if ks != [] {
      NamedIsThere(n, ks[1..], name);
    }
  }

  lemma KidsAreNodes(n: Nodes, p: nat, ks: seq<nat>)
    requires p in n && ListOk(n, p, ks)
    ensures forall j :: 0 <= j < |ks| ==> ks[j] in n
  {
    forall j | 0 <= j < |ks|
      ensures ks[j] in n
    {
      assert KidOk(n, p, ks, j);
    }
  }

  /** Looking a name up under `p` finds the node one step below, if there is one. */
  lemma NamedIsPlace(n: Nodes, kids: Kids, at: Places, p: nat, name: string)
    requires TreeOk(n, kids, at) && p in n
    ensures var c := Named(n, kids[p], name);
      && (c != 0 ==> c in n && n[c].parent == p != c && at[c] == Place(at[p].root, at[p].path + [name]))
      && (c == 0 ==> forall v :: v in n ==> at[v] != Place(at[p].root, at[p].path + [name]))
  {
    var c := Named(n, kids[p], name);
    assert ListOk(n, p, kids[p]);
    KidsAreNodes(n, p, kids[p]);
    NamedIsThere(n, kids[p], name);
    if c != 0 {
      var i :| 0 <= i < |kids[p]| && kids[p][i] == c;
      assert KidOk(n, p, kids[p], i) && PlaceOk(n, kids, at, c);
    } else {
      forall v | v in n && at[v] == Place(at[p].root, at[p].path + [name])
        ensures false
      {
        KidByPlace(n, kids, at, p, v, name);
      }
    }
  }

  lemma KidByPlace(n: Nodes, kids: Kids, at: Places, p: nat, v: nat, name: string)
    requires TreeOk(n, kids, at) && p in n && v in n && at[v] == Place(at[p].root, at[p].path + [name])
    ensures v in kids[p] && n[v].name == name && n[v].parent == p
  {
    assert PlaceOk(n, kids, at, v);
    var q := n[v].parent;
    assert at[q].path == at[v].path[..|at[v].path| - 1] == at[p].path;
    PlaceIsUnique(n, kids, at, p, q);
  }

  /** Every node above a node is there, and is a directory. */
  lemma {:induction false} Ancestor(n: Nodes, kids: Kids, at: Places, v: nat, k: nat) returns (w: nat)
    requires TreeOk(n, kids, at) && v in n && k <= |at[v].path|
    ensures w in n && at[w] == Place(at[v].root, at[v].path[..k]) && (k < |at[v].path| ==> n[w].kind == Dir)
    decreases |at[v].path|
  {
    assert PlaceOk(n, kids, at, v);
    if k == |at[v].path| {
      w := v;
      assert at[v].path[..k] == at[v].path;
    } else {
      var p := n[v].parent;
      assert ListOk(n, p, kids[p]);
      w := Ancestor(n, kids, at, p, k);
      assert at[v].path[..k] == at[p].path[..k];
      if k == |at[p].path| {
        PlaceIsUnique(n, kids, at, w, p);
      }
    }
  }

  // ---------- Paths as text ----------

  /** A slash before every name. */
  function PathText(path: seq<string>): (t: string)
    ensures path != [] ==> |t| > 0 && t[0] == '/'
  {
    if path == [] then "" else PathText(path[..|path| - 1]) + "/" + path[|path| - 1]
  }

  function FullText(path: seq<string>): string
  {
    if path == [] then "/" else PathText(path)
  }

  predicate NameOk(name: string)
  {
    0 < |name| <= NAME_MAX && '/' !in name && '\0' !in name
  }

  ghost predicate NamesOk(path: seq<string>)
  {
    forall k :: 0 <= k < |path| ==> NameOk(path[k])
  }

  /** The text behind the first slash, front to back. */
  function Joined(path: seq<string>): string
  {
    if path == [] then "" else if |path| == 1 then path[0] else path[0] + "/" + Joined(path[1..])
  }

  lemma {:induction false} JoinedPush(path: seq<string>, name: string)
    requires path != []
    ensures Joined(path + [name]) == Joined(path) + "/" + name
  {
    var more := path + [name];
    assert more[1..] == path[1..] + [name];
    if |path| == 1 {
      assert more[1..] == [name];
      assert Joined(more) == path[0] + "/" + name;
    } else {
      JoinedPush(path[1..], name);
      assert Joined(more) == path[0] + "/" + (Joined(path[1..]) + "/" + name);
    }
  }

  lemma {:induction false} PathTextIsJoined(path: seq<string>)
    requires path != []
    ensures PathText(path) == "/" + Joined(path)
  {
    var front, last := path[..|path| - 1], path[|path| - 1];
    assert path == front + [last];
    if front == [] {
      assert PathText(front) == "";
      assert path == [last];
    } else {
      PathTextIsJoined(front);
      JoinedPush(front, last);
      assert PathText(path) == "/" + (Joined(front) + "/" + last);
    }
  }

  /** Where the name that starts the text ends; no name is longer than the buffer. */
  function ScanName(text: string, i: nat): (k: nat)
    requires i <= |text| && i <= NAME_MAX && forall j :: 0 <= j < i ==> text[j] != '/'
    ensures i <= k <= |text| && k <= 255 && (k == |text| || text[k] == '/' || k == 255)
    ensures forall j :: 0 <= j < k ==> text[j] != '/'
    decreases |text| - i
  {
    if i < |text| && text[i] != '/' && i < NAME_MAX then ScanName(text, i + 1) else i
  }

  /** What is left of the text behind a name of length `i`, without the slash. */
  function Behind(text: string, i: nat): string
    requires i <= |text|
  {
    if i < |text| && text[i] == '/' then text[i + 1..] else text[i..]
  }

  /** What vfs_lazy_lookup finds from node `u` on; the first node that is no directory ends the walk. */
  function Walk(n: Nodes, kids: Kids, u: nat, text: string): nat
    decreases |text|
  {
    if text == "" then u
    else
      var i := ScanName(text, 0);
      var c := if u in kids then Named(n, kids[u], text[..i]) else 0;
      if c == 0 || c !in n then 0
      else if n[c].kind != Dir then c
      else Walk(n, kids, c, Behind(text, i))
  }

  /** The mounts in turn, until one of them knows the path. */
  function WalkMounts(n: Nodes, kids: Kids, mounts: seq<nat>, text: string): nat
  {
    if mounts == [] then 0
    else
      var r := Walk(n, kids, mounts[0], text);
      if r != 0 then r else WalkMounts(n, kids, mounts[1..], text)
  }

  /** A path as it may be written: with or without a slash at its end. */
  predicate IsTail(post: string)
  {
    post == "" || post == "/"
  }

  /** What follows the first name of a path: nothing, or a slash and the rest. */
  function AfterFirst(path: seq<string>, post: string): string
    requires path != []
  {
    if |path| == 1 then post else "/" + (Joined(path[1..]) + post)
  }

  lemma JoinedSplits(path: seq<string>, post: string)
    requires path != []
    ensures Joined(path) + post == path[0] + AfterFirst(path, post)
    ensures |path| > 1 ==> AfterFirst(path, post)[1..] == Joined(path[1..]) + post
  {
    if |path| > 1 {
      Associative(path[0] + "/", Joined(path[1..]), post);
      Associative(path[0], "/", Joined(path[1..]) + post);
    }
  }

  lemma ScanFirst(name: string, tail: string)
    requires NameOk(name) && (tail == "" || tail[0] == '/')
    ensures var text := name + tail; var i := ScanName(text, 0);
      text != "" && text[..i] == name && Behind(text, i) == if tail == "" then "" else tail[1..]
  {
    var text := name + tail;
    var i := ScanName(text, 0);
    assert forall j :: 0 <= j < |name| ==> text[j] == name[j] != '/';
    assert tail != "" ==> text[|name|] == '/';
    assert i == |name|;
  }

  lemma ScanJoined(rest: seq<string>, post: string)
    requires rest != [] && NameOk(rest[0]) && IsTail(post)
    ensures var text := Joined(rest) + post; var i := ScanName(text, 0);
      text != "" && text[..i] == rest[0] && Behind(text, i) == if |rest| == 1 then "" else Joined(rest[1..]) + post
  {
    JoinedSplits(rest, post);
    ScanFirst(rest[0], AfterFirst(rest, post));
  }

  /** One step of the walk: to the child with the first name. */
  lemma WalkStep(n: Nodes, kids: Kids, u: nat, rest: seq<string>, post: string)
    requires rest != [] && NameOk(rest[0]) && IsTail(post) && u in kids
    requires var w := Named(n, kids[u], rest[0]); w != 0 && w in n
    ensures var w := Named(n, kids[u], rest[0]);
      Walk(n, kids, u, Joined(rest) + post) == if |rest| == 1 || n[w].kind != Dir then w else Walk(n, kids, w, Joined(rest[1..]) + post)
  {
    ScanJoined(rest, post);
  }

  /** Without a child of the first name the walk finds nothing. */
  lemma WalkMisses(n: Nodes, kids: Kids, u: nat, rest: seq<string>, post: string)
    requires rest != [] && NameOk(rest[0]) && IsTail(post) && u in kids && Named(n, kids[u], rest[0]) == 0
    ensures Walk(n, kids, u, Joined(rest) + post) == 0
  {
    ScanJoined(rest, post);
  }

  /** The first mount that knows the path answers; nothing is found if none does. */
  lemma {:induction false} MountsInTurn(n: Nodes, kids: Kids, mounts: seq<nat>, text: string, i: nat)
    requires i <= |mounts| && forall j :: 0 <= j < i ==> Walk(n, kids, mounts[j], text) == 0
    ensures i == |mounts| ==> WalkMounts(n, kids, mounts, text) == 0
    ensures i < |mounts| && Walk(n, kids, mounts[i], text) != 0 ==> WalkMounts(n, kids, mounts, text) == Walk(n, kids, mounts[i], text)
    decreases |mounts|
  {
    if i > 0 {
      MountsInTurn(n, kids, mounts[1..], text, i - 1);
    }
  }

  /** The child with the first name lies on the way to every node below. */
  lemma FirstStep(n: Nodes, kids: Kids, at: Places, u: nat, v: nat, rest: seq<string>)
    requires TreeOk(n, kids, at) && u in n && v in n && at[v] == Place(at[u].root, at[u].path + rest) && rest != []
    ensures u in kids
    ensures var w := Named(n, kids[u], rest[0]);
      && w != 0 && w in n && w in at && at[v] == Place(at[w].root, at[w].path + rest[1..]) && (|rest| == 1 ==> w == v)
      && (|rest| > 1 ==> n[w].kind == Dir)
  {
    var k := |at[u].path| + 1;
    var w := Ancestor(n, kids, at, v, k);
    assert at[v].path[..k] == at[u].path + [rest[0]];
    NamedIsPlace(n, kids, at, u, rest[0]);
    PlaceIsUnique(n, kids, at, w, Named(n, kids[u], rest[0]));
    assert at[v].path == at[w].path + rest[1..];
    if |rest| == 1 {
      PlaceIsUnique(n, kids, at, w, v);
    }
  }

  /** From any node, the names below it lead to the node that has them. */
  lemma {:induction false} WalkFinds(n: Nodes, kids: Kids, at: Places, u: nat, v: nat, rest: seq<string>, post: string)
    requires TreeOk(n, kids, at) && u in n && v in n && at[v] == Place(at[u].root, at[u].path + rest) && NamesOk(rest)
    requires IsTail(post) && (rest == [] ==> post == "")
    ensures Walk(n, kids, u, Joined(rest) + post) == v
    decreases |rest|
  {
    if rest == [] {
      assert at[u].path + rest == at[u].path;
      PlaceIsUnique(n, kids, at, u, v);
    } else {
      FirstStep(n, kids, at, u, v, rest);
      WalkStep(n, kids, u, rest, post);
      if |rest| > 1 {
        WalkFinds(n, kids, at, Named(n, kids[u], rest[0]), v, rest[1..], post);
      }
    }
  }

  /** Looking up the full path of a node gives that node. */
  lemma PathRoundTrip(n: Nodes, kids: Kids, at: Places, v: nat, mounts: seq<nat>)
    requires TreeOk(n, kids, at) && v in n && NamesOk(at[v].path)
    requires mounts != [] && mounts[0] == at[v].root
    ensures var t := FullText(at[v].path); t[0] == '/' && WalkMounts(n, kids, mounts, t[1..]) == v
  {
    var path := at[v].path;
    if path != [] {
      PathTextIsJoined(path);
    }
    assert FullText(path)[1..] == Joined(path);
    var top := Ancestor(n, kids, at, v, 0);
    assert PlaceOk(n, kids, at, top);
    assert [] + path == path && Joined(path) + "" == Joined(path);
    WalkFinds(n, kids, at, mounts[0], v, path, "");
  }

  // ---------- Adding a node ----------

  /** Node `c` becomes the last child of `p`, whose children so far are `ks`. */
  function Linked(n: Nodes, p: nat, ks: seq<nat>, c: nat): Nodes
    requires p in n && (ks != [] ==> ks[|ks| - 1] in n)
  {
    if ks == [] then n[p := n[p].(child := c)]
    else n[ks[|ks| - 1] := n[ks[|ks| - 1]].(next := c)]
  }

  function NewNode(p: nat, name: string, kind: Kind): Vnode
  {
    Vnode(p, 0, 0, kind, name, "")
  }

  /** Nodes that differ in their list links only. */
  predicate SameButLinks(a: Vnode, b: Vnode)
  {
    a.parent == b.parent && a.kind == b.kind && a.name == b.name && a.bytes == b.bytes
  }

  ghost predicate CanAdd(n: Nodes, kids: Kids, at: Places, p: nat, c: nat, name: string)
  {
    && TreeOk(n, kids, at) && p in n && n[p].kind == Dir && c !in n && c != 0
    && Named(n, kids[p], name) == 0
  }

  function WithNode(n: Nodes, p: nat, ks: seq<nat>, c: nat, name: string, kind: Kind): Nodes
    requires p in n && (ks != [] ==> ks[|ks| - 1] in n)
  {
    Linked(n[c := NewNode(p, name, kind)], p, ks, c)
  }

  lemma LastKid(n: Nodes, p: nat, ks: seq<nat>)
    requires p in n && ListOk(n, p, ks) && ks != []
    ensures var last := ks[|ks| - 1]; last in n && last != p && n[last].parent == p && n[last].next == 0
  {
    assert KidOk(n, p, ks, |ks| - 1);
  }

  /** What adding does to each node. */
  lemma WithNodeAt(n: Nodes, kids: Kids, at: Places, p: nat, c: nat, name: string, kind: Kind, v: nat)
    requires CanAdd(n, kids, at, p, c, name) && (kids[p] != [] ==> kids[p][|kids[p]| - 1] in n)
    ensures var n' := WithNode(n, p, kids[p], c, name, kind);
      && n'.Keys == n.Keys + {c} && n'[c] == NewNode(p, name, kind)
      && (v in n ==>
            && SameButLinks(n'[v], n[v])
            && n'[v].child == (if v == p && kids[p] == [] then c else n[v].child)
            && n'[v].next == (if kids[p] != [] && v == kids[p][|kids[p]| - 1] then c else n[v].next))
  {
  }

  lemma AddKeepsOtherList(n: Nodes, kids: Kids, at: Places, p: nat, c: nat, name: string, kind: Kind, q: nat)
    requires CanAdd(n, kids, at, p, c, name) && (kids[p] != [] ==> kids[p][|kids[p]| - 1] in n)
    requires q in n && q != p
    ensures var n' := WithNode(n, p, kids[p], c, name, kind); q in n' && ListOk(n', q, kids[q])
  {
    var n' := WithNode(n, p, kids[p], c, name, kind);
    var ks := kids[q];
    assert ListOk(n, q, ks) && ListOk(n, p, kids[p]);
    WithNodeAt(n, kids, at, p, c, name, kind, q);
    forall i | 0 <= i < |ks|
      ensures KidOk(n', q, ks, i)
    {
      assert KidOk(n, q, ks, i);
      WithNodeAt(n, kids, at, p, c, name, kind, ks[i]);
      if kids[p] != [] {
        LastKid(n, p, kids[p]);
      }
    }
    forall i, j | 0 <= i < j
      ensures NamesDiffer(n', ks, i, j)
    {
      AddKeepsNames(n, kids, at, p, c, name, kind, q, i, j);
    }
  }

  lemma AddKeepsNames(n: Nodes, kids: Kids, at: Places, p: nat, c: nat, name: string, kind: Kind, q: nat, i: nat, j: nat)
    requires CanAdd(n, kids, at, p, c, name) && (kids[p] != [] ==> kids[p][|kids[p]| - 1] in n)
    requires q in n && i < j
    ensures NamesDiffer(WithNode(n, p, kids[p], c, name, kind), kids[q], i, j)
  {
    var ks := kids[q];
    assert ListOk(n, q, ks);
    if j < |ks| {
      assert NamesDiffer(n, ks, i, j) && KidOk(n, q, ks, i) && KidOk(n, q, ks, j);
      WithNodeAt(n, kids, at, p, c, name, kind, ks[i]);
      WithNodeAt(n, kids, at, p, c, name, kind, ks[j]);
    }
  }

  lemma AddExtendsList(n: Nodes, kids: Kids, at: Places, p: nat, c: nat, name: string, kind: Kind)
    requires CanAdd(n, kids, at, p, c, name) && (kids[p] != [] ==> kids[p][|kids[p]| - 1] in n)
    ensures var n' := WithNode(n, p, kids[p], c, name, kind); p in n' && ListOk(n', p, kids[p] + [c])
  {
    var n' := WithNode(n, p, kids[p], c, name, kind);
    var ks, more := kids[p], kids[p] + [c];
    assert ListOk(n, p, ks);
    KidsAreNodes(n, p, ks);
    NamedIsThere(n, ks, name);
    WithNodeAt(n, kids, at, p, c, name, kind, p);
    forall i | 0 <= i < |more|
      ensures KidOk(n', p, more, i)
    {
      if i < |ks| {
        assert KidOk(n, p, ks, i);
        WithNodeAt(n, kids, at, p, c, name, kind, ks[i]);
        NextDiffers(n, p, ks, i);
      }
    }
    forall i, j | 0 <= i < j
      ensures NamesDiffer(n', more, i, j)
    {
      if j < |ks| {
        AddKeepsNames(n, kids, at, p, c, name, kind, p, i, j);
      } else if j == |ks| {
        WithNodeAt(n, kids, at, p, c, name, kind, ks[i]);
      }
    }
  }

  /** Only the last child is last. */
  lemma NextDiffers(n: Nodes, p: nat, ks: seq<nat>, i: nat)
    requires p in n && ListOk(n, p, ks) && i < |ks|
    ensures i < |ks| - 1 ==> ks[i] != ks[|ks| - 1]
  {
    assert KidOk(n, p, ks, i) && KidOk(n, p, ks, |ks| - 1);
    assert i < |ks| - 1 ==> NamesDiffer(n, ks, i, |ks| - 1);
  }

  function MoreKids(kids: Kids, p: nat, c: nat): Kids
    requires p in kids
  {
    kids[p := kids[p] + [c]][c := []]
  }

  function MorePlaces(at: Places, p: nat, c: nat, name: string): Places
    requires p in at
  {
    at[c := Place(at[p].root, at[p].path + [name])]
  }

  lemma AddKeepsPlace(n: Nodes, kids: Kids, at: Places, p: nat, c: nat, name: string, kind: Kind, v: nat)
    requires CanAdd(n, kids, at, p, c, name) && (kids[p] != [] ==> kids[p][|kids[p]| - 1] in n)
    requires v in n || v == c
    ensures var n' := WithNode(n, p, kids[p], c, name, kind);
      && n'.Keys == MoreKids(kids, p, c).Keys == MorePlaces(at, p, c, name).Keys == n.Keys + {c}
      && PlaceOk(n', MoreKids(kids, p, c), MorePlaces(at, p, c, name), v)
  {
    WithNodeAt(n, kids, at, p, c, name, kind, v);
    var kids' := MoreKids(kids, p, c);
    assert kids'[p] == kids[p] + [c];
    if v == c {
      assert kids'[p][|kids[p]|] == c;
    } else {
      assert PlaceOk(n, kids, at, v);
    }
  }

  lemma AddKeepsTree(n: Nodes, kids: Kids, at: Places, p: nat, c: nat, name: string, kind: Kind)
    requires CanAdd(n, kids, at, p, c, name) && (kids[p] != [] ==> kids[p][|kids[p]| - 1] in n)
    ensures TreeOk(WithNode(n, p, kids[p], c, name, kind), MoreKids(kids, p, c), MorePlaces(at, p, c, name))
  {
    var n', kids', at' := WithNode(n, p, kids[p], c, name, kind), MoreKids(kids, p, c), MorePlaces(at, p, c, name);
    AddKeepsPlace(n, kids, at, p, c, name, kind, c);
    WithNodeAt(n, kids, at, p, c, name, kind, c);
    forall q | q in n'
      ensures ListOk(n', q, kids'[q])
    {
      if q == p {
        AddExtendsList(n, kids, at, p, c, name, kind);
      } else if q != c {
        AddKeepsOtherList(n, kids, at, p, c, name, kind, q);
      }
    }
    forall v | v in n'
      ensures PlaceOk(n', kids', at', v)
    {
      AddKeepsPlace(n, kids, at, p, c, name, kind, v);
    }
  }

  // ---------- Contents ----------

  datatype Content = Content(kind: Kind, bytes: string)

  /** What is at each place. */
  type View = map<Place, Content>

  ghost predicate Seen(n: Nodes, at: Places, view: View, v: nat)
  {
    v in n && v in at ==> at[v] in view && view[at[v]] == Content(n[v].kind, n[v].bytes)
  }

  ghost predicate Inhabited(at: Places, place: Place)
  {
    exists v :: v in at && at[v] == place
  }

  ghost predicate Views(n: Nodes, at: Places, view: View)
  {
    && (forall v {:trigger Seen(n, at, view, v)} :: Seen(n, at, view, v))
    && (forall place {:trigger Inhabited(at, place)} :: place in view ==> Inhabited(at, place))
  }

  lemma AddExtendsView(n: Nodes, kids: Kids, at: Places, view: View, p: nat, c: nat, name: string, kind: Kind)
    requires CanAdd(n, kids, at, p, c, name) && (kids[p] != [] ==> kids[p][|kids[p]| - 1] in n) && Views(n, at, view)
    ensures var place := Place(at[p].root, at[p].path + [name]);
      && place !in view
      && Views(WithNode(n, p, kids[p], c, name, kind), MorePlaces(at, p, c, name), view[place := Content(kind, "")])
  {
    var n', at' := WithNode(n, p, kids[p], c, name, kind), MorePlaces(at, p, c, name);
    var place := Place(at[p].root, at[p].path + [name]);
    NamedIsPlace(n, kids, at, p, name);
    assert place in view ==> Inhabited(at, place);
    var view' := view[place := Content(kind, "")];
    forall v
      ensures Seen(n', at', view', v)
    {
      WithNodeAt(n, kids, at, p, c, name, kind, v);
      assert Seen(n, at, view, v);
    }
    forall other | other in view'
      ensures Inhabited(at', other)
    {
      if other == place {
        assert at'[c] == place;
      } else {
        assert Inhabited(at, other);
        var v :| v in at && at[v] == other;
        assert at'[v] == other;
      }
    }
  }

  lemma SetBytesKeepsTree(n: Nodes, kids: Kids, at: Places, v: nat, bytes: string)
    requires TreeOk(n, kids, at) && v in n
    ensures TreeOk(n[v := n[v].(bytes := bytes)], kids, at)
  {
    var n' := n[v := n[v].(bytes := bytes)];
    forall q | q in n'
      ensures ListOk(n', q, kids[q])
    {
      var ks := kids[q];
      assert ListOk(n, q, ks);
      forall i | 0 <= i < |ks|
        ensures KidOk(n', q, ks, i)
      {
        assert KidOk(n, q, ks, i);
      }
      forall i, j | 0 <= i < j
        ensures NamesDiffer(n', ks, i, j)
      {
        assert NamesDiffer(n, ks, i, j);
      }
    }
    forall w | w in n'
      ensures PlaceOk(n', kids, at, w)
    {
      assert PlaceOk(n, kids, at, w);
    }
  }

  lemma SetBytesView(n: Nodes, kids: Kids, at: Places, view: View, v: nat, bytes: string)
    requires TreeOk(n, kids, at) && v in n && Views(n, at, view)
    ensures Views(n[v := n[v].(bytes := bytes)], at, view[at[v] := Content(n[v].kind, bytes)])
  {
    var n', view' := n[v := n[v].(bytes := bytes)], view[at[v] := Content(n[v].kind, bytes)];
    forall w
      ensures Seen(n', at, view', w)
    {
      assert Seen(n, at, view, w);
      if w in n && at[w] == at[v] {
        PlaceIsUnique(n, kids, at, v, w);
      }
    }
  }
}
