/** vfs_lookup, vfs_lazy_lookup, _vfs_get_full_path and vfs_create_vnode on linked vnodes. */
module Vfs {
  import opened Sequences
  import opened VnodeTree

  class FileSystem {
    var nodes: Nodes
    // kmalloc hands out addresses never used before.
    var nextAddress: nat

    // Child lists and places.
    ghost var kids: Kids
    ghost var at: Places

    ghost predicate Valid()
      reads this
    {
      TreeOk(nodes, kids, at) && nextAddress > 0 && forall v :: v in nodes ==> v < nextAddress
    }

    /** vfs_init: a root directory that is its own parent. */
    constructor ()
      ensures Valid() && nodes.Keys == {1} && nodes[1].kind == Dir && at == map[1 := Place(1, [])]
    {
      nodes, nextAddress := map[1 := Vnode(1, 0, 0, Dir, "/", "")], 2;
      kids, at := map[1 := []], map[1 := Place(1, [])];
    }

    /** vfs_lookup */
    method Lookup(parent: nat, name: string) returns (c: nat)
      requires Valid() && parent in nodes
      ensures c == Named(nodes, kids[parent], name)
    {
      ghost var ks := kids[parent];
      assert ListOk(nodes, parent, ks);
      KidsAreNodes(nodes, parent, ks);
      c := nodes[parent].child;
      ghost var i := 0;
      while c != 0
        invariant 0 <= i <= |ks| && c == KidAt(ks, i)
        invariant forall j :: 0 <= j < i ==> nodes[ks[j]].name != name
        decreases |ks| - i
      {
        NamedIsFirst(nodes, ks, name, i);
        if nodes[c].name == name {
          return;
        }
        assert KidOk(nodes, parent, ks, i);
        c := nodes[c].next;
        i := i + 1;
      }
      NamedIsFirst(nodes, ks, name, i);
    }

    /** Copies the name that starts at `from` into the buffer. */
    method ReadName(path: string, from: nat) returns (name: string)
      requires from <= |path|
      ensures name == path[from..][..ScanName(path[from..], 0)]
    {
      ghost var text := path[from..];
      var buffer := new char[NAME_MAX + 1];
      var i := 0;
      while from + i < |path| && path[from + i] != '/' && i < NAME_MAX
        invariant i <= |text| && i <= NAME_MAX
        invariant forall j :: 0 <= j < i ==> text[j] != '/'
        invariant ScanName(text, i) == ScanName(text, 0)
        invariant forall j :: 0 <= j < i ==> buffer[j] == text[j]
      {
        buffer[i] := path[from + i];
        i := i + 1;
      }
      buffer[i] := '\0';
      name := buffer[..i];
    }

    /** vfs_lazy_lookup */
    method LazyLookup(mounts: seq<nat>, path: string) returns (v: nat)
      requires Valid() && forall m :: m in mounts ==> m in nodes
      ensures v == if path == "" || path[0] != '/' then 0 else WalkMounts(nodes, kids, mounts, path[1..])
      decreases |mounts|
    {
      if mounts == [] || path == "" || path[0] != '/' {
        return 0;
      }
      v := mounts[0];
      var j := 1;
      while j < |path|
        invariant 1 <= j <= |path| && v in nodes
        invariant Walk(nodes, kids, v, path[j..]) == Walk(nodes, kids, mounts[0], path[1..])
      {
        ghost var text := path[j..];
        var name := ReadName(path, j);
        ghost var u := v;
        v := Lookup(v, name);
        NamedIsPlace(nodes, kids, at, u, name);
        if v == 0 {
          v := LazyLookup(mounts[1..], path);
          return;
        }
        j := j + |name|;
        if nodes[v].kind != Dir {
          return;
        }
        if j < |path| && path[j] == '/' {
          j := j + 1;
        }
        assert path[j..] == Behind(text, |name|);
      }
    }

    /** The length of the path of `v`, walking up; false when it has more than a thousand names. */
    method MeasurePath(v: nat) returns (length: nat, ok: bool)
      requires Valid() && v in nodes
      ensures ok <==> |at[v].path| <= MAX_DEPTH
      ensures ok ==> length == |PathText(at[v].path)|
    {
      length, ok := 0, true;
      var count, current := 0, v;
      assert PlaceOk(nodes, kids, at, v);
      while nodes[current].parent != current
        invariant current in nodes && PlaceOk(nodes, kids, at, current)
        invariant count + |at[current].path| == |at[v].path| && count <= MAX_DEPTH
        invariant length + |PathText(at[current].path)| == |PathText(at[v].path)|
        decreases |at[current].path|
      {
        ParentPath(nodes, kids, at, current);
        length := length + |nodes[current].name| + 1;
        count := count + 1;
        current := nodes[current].parent;
        if count > MAX_DEPTH {
          return length, false;
        }
      }
    }

    /** memcpy of a name into the buffer */
    method CopyName(buffer: array<char>, from: nat, name: string)
      requires from + |name| <= buffer.Length
      modifies buffer
      ensures buffer[..] == old(buffer[..from]) + name + old(buffer[from + |name|..])
    {
      var i := 0;
      while i < |name|
        invariant 0 <= i <= |name|
        invariant buffer[..] == old(buffer[..from]) + name[..i] + old(buffer[from + i..])
      {
        buffer[from + i] := name[i];
        i := i + 1;
      }
      assert name[..i] == name;
    }

    /** A name and the slash before it, ending where the filled part begins. */
    method PutName(buffer: array<char>, end: nat, name: string) returns (length: nat)
      requires |name| < end <= buffer.Length
      modifies buffer
      ensures length + |name| + 1 == end && buffer[length..] == "/" + name + old(buffer[end..])
    {
      length := end - |name|;
      CopyName(buffer, length, name);
      length := length - 1;
      buffer[length] := '/';
    }

    /** Fills the buffer from its end with the names on the way up; false when what is left gets too long. */
    method BackFill(v: nat, buffer: array<char>) returns (ok: bool)
      requires Valid() && v in nodes && buffer.Length == |PathText(at[v].path)| + 1 && buffer[buffer.Length - 1] == '\0'
      modifies buffer
      ensures !ok <==> at[v].path != [] && |PathText(at[v].path[..|at[v].path| - 1])| > MAX_LENGTH
      ensures ok ==> buffer[..] == PathText(at[v].path) + "\0"
    {
      ghost var whole := PathText(at[v].path) + "\0";
      var length, current := buffer.Length - 1, v;
      assert PlaceOk(nodes, kids, at, v);
      while nodes[current].parent != current
        invariant current in nodes && PlaceOk(nodes, kids, at, current)
        invariant length == |PathText(at[current].path)| <= buffer.Length
        invariant PathText(at[current].path) + buffer[length..] == whole
        invariant if current == v then length == buffer.Length - 1 else length <= MAX_LENGTH && at[v].path != [] && |PathText(at[v].path[..|at[v].path| - 1])| <= MAX_LENGTH
        decreases |at[current].path|
      {
        ParentPath(nodes, kids, at, current);
        ghost var above, filled := PathText(at[nodes[current].parent].path), buffer[length..];
        length := PutName(buffer, length, nodes[current].name);
        Associative(above, "/", nodes[current].name);
        Associative(above, "/" + nodes[current].name, filled);
        current := nodes[current].parent;
        if length > MAX_LENGTH {
          return false;
        }
      }
      ok := true;
    }

    /**
      _vfs_get_full_path; null is NULL, `memory` is whether kmalloc finds room.  The back-fill
      ends at index 0 with a slash, so that no slash ever has to be put in front.
     */
    method FullPath(v: nat, memory: bool) returns (path: array?<char>)
      requires Valid() && (v != 0 ==> v in nodes)
      ensures path == null <==> v == 0 || TooLong(at[v].path) || !memory
      ensures path != null ==> fresh(path) && path[..] == FullText(at[v].path) + "\0"
    {
      if v == 0 {
        return null;
      }
      assert PlaceOk(nodes, kids, at, v);
      if nodes[v].parent == v {
        if !memory {
          return null;
        }
        path := new char[2]['/', '\0'];
        return;
      }
      var length, ok := MeasurePath(v);
      if !ok || !memory {
        return null;
      }
      path := new char[length + 1];
      path[length] := '\0';
      ok := BackFill(v, path);
      if !ok {
        return null;
      }
      assert path[0] == '/';
    }

    /** The last child of a node that has children. */
    method LastChild(parent: nat) returns (last: nat)
      requires Valid() && parent in nodes && nodes[parent].child != 0
      ensures kids[parent] != [] && last == kids[parent][|kids[parent]| - 1] && last in nodes
    {
      ghost var ks := kids[parent];
      assert ListOk(nodes, parent, ks);
      KidsAreNodes(nodes, parent, ks);
      last := nodes[parent].child;
      ghost var i := 0;
      while nodes[last].next != 0
        invariant 0 <= i < |ks| && last == ks[i]
        decreases |ks| - i
      {
        assert KidOk(nodes, parent, ks, i);
        last := nodes[last].next;
        i := i + 1;
      }
      assert KidOk(nodes, parent, ks, i);
    }

    /** A new node is filled in and becomes the last child of its parent. */
    method Link(parent: nat, c: nat, name: string, kind: Kind)
      requires Valid() && parent in nodes && c !in nodes
      modifies `nodes
      ensures kids[parent] != [] ==> kids[parent][|kids[parent]| - 1] in old(nodes)
      ensures nodes == WithNode(old(nodes), parent, kids[parent], c, name, kind)
    {
      assert ListOk(nodes, parent, kids[parent]);
      HeadIsChild(nodes, parent, kids[parent]);
      if nodes[parent].child == 0 {
        nodes := nodes[c := NewNode(parent, name, kind)];
        nodes := nodes[parent := nodes[parent].(child := c)];
      } else {
        var last := LastChild(parent);
        nodes := nodes[c := NewNode(parent, name, kind)];
        nodes := nodes[last := nodes[last].(next := c)];
      }
    }

    /** vfs_create_vnode through ramfs_create; `memory` is whether kmalloc finds room. */
    method Create(parent: nat, name: string, kind: Kind, memory: bool) returns (c: nat)
      requires Valid() && parent in nodes
      modifies `nodes, `nextAddress, `kids, `at
      ensures Valid()
      ensures c == 0 <==> old(nodes)[parent].kind != Dir || Named(old(nodes), old(kids)[parent], name) != 0 || !memory
      ensures c == 0 ==> nodes == old(nodes) && kids == old(kids) && at == old(at)
      ensures c != 0 ==>
        && CanAdd(old(nodes), old(kids), old(at), parent, c, name)
        && (old(kids)[parent] != [] ==> old(kids)[parent][|old(kids)[parent]| - 1] in old(nodes))
        && nodes == WithNode(old(nodes), parent, old(kids)[parent], c, name, kind)
        && kids == MoreKids(old(kids), parent, c) && at == MorePlaces(old(at), parent, c, name)
    {
      if nodes[parent].kind != Dir {
        return 0;
      }
      var found := Lookup(parent, name);
      if found != 0 || !memory {
        return 0;
      }
      c := nextAddress;
      Link(parent, c, name, kind);
      AddKeepsTree(old(nodes), kids, at, parent, c, name, kind);
      AddKeepsPlace(old(nodes), kids, at, parent, c, name, kind, c);
      nextAddress := nextAddress + 1;
      kids, at := MoreKids(kids, parent, c), MorePlaces(at, parent, c, name);
    }

    /** The bytes of a file are replaced. */
    method SetBytes(v: nat, bytes: string)
      requires Valid() && v in nodes
      modifies `nodes
      ensures Valid() && nodes == old(nodes)[v := old(nodes)[v].(bytes := bytes)]
    {
      SetBytesKeepsTree(nodes, kids, at, v, bytes);
      nodes := nodes[v := nodes[v].(bytes := bytes)];
    }

    /** ramfs_read; the bytes that go to the buffer, and the result. */
    method Read(v: nat, size: nat, offset: nat, buffer: bool) returns (result: int, bytes: string)
      requires v != 0 ==> v in nodes
      ensures v == 0 || nodes[v].kind != File ==> result == -1 && bytes == ""
      ensures v != 0 && nodes[v].kind == File ==>
        if offset >= |nodes[v].bytes| then result == 0 && bytes == ""
        else if !buffer then result == -1 && bytes == ""
        else result == |bytes| && bytes <= nodes[v].bytes[offset..] && (|bytes| == size || (|bytes| < size && bytes == nodes[v].bytes[offset..]))
    {
      if v == 0 || nodes[v].kind != File {
        return -1, "";
      }
      var data := nodes[v].bytes;
      if offset >= |data| {
        return 0, "";
      }
      var toRead := if size > |data| - offset then |data| - offset else size;
      if !buffer {
        return -1, "";
      }
      bytes := data[offset..offset + toRead];
      result := toRead;
    }
  }

  lemma HeadIsChild(n: Nodes, p: nat, ks: seq<nat>)
    requires 0 !in n && p in n && ListOk(n, p, ks)
    ensures ks != [] ==> n[p].child != 0
  {
    assert ks != [] ==> KidOk(n, p, ks, 0);
  }

  const MAX_DEPTH: nat := 1000
  const MAX_LENGTH: nat := 1000000

  /** More than a thousand names, or more than a million characters above the last one. */
  ghost predicate TooLong(path: seq<string>)
  {
    path != [] && (|path| > MAX_DEPTH || |PathText(path[..|path| - 1])| > MAX_LENGTH)
  }

  lemma {:induction false} NamesBoundPath(path: seq<string>)
    requires NamesOk(path)
    ensures |PathText(path)| <= (NAME_MAX + 1) * |path|
  {
    if path != [] {
      NamesBoundPath(path[..|path| - 1]);
      assert NameOk(path[|path| - 1]);
    }
  }

  /** The limits of the two loops: names are counted in the first, and what is left in front of a name in the second. */
  lemma TooLongIs(path: seq<string>)
    ensures TooLong(path) <==> path != [] && (|path| > 1000 || |PathText(path[..|path| - 1])| > 1000000)
  {
  }

  /** With proper names, only the depth can be too much. */
  lemma TooLongIffTooDeep(path: seq<string>)
    requires NamesOk(path)
    ensures TooLong(path) <==> |path| > 1000
  {
    if path != [] {
      NamesBoundPath(path[..|path| - 1]);
    }
  }

  lemma ParentPath(n: Nodes, kids: Kids, at: Places, v: nat)
    requires TreeOk(n, kids, at) && v in n && n[v].parent != v
    ensures var p := n[v].parent;
      && p in n && PlaceOk(n, kids, at, p) && |at[p].path| + 1 == |at[v].path|
      && PathText(at[v].path) == PathText(at[p].path) + "/" + n[v].name && at[v].path[..|at[v].path| - 1] == at[p].path
  {
    assert PlaceOk(n, kids, at, v);
    assert PlaceOk(n, kids, at, n[v].parent);
  }
}
