/** Directory trees as `read_dir` enumerates them: the entries of a directory come
    in some order, and nothing below may depend on it. */
module FileTree {
  import opened Text

  type byte = n: int | 0 <= n < 256

  datatype Entry = Entry(name: string, node: Node)

  /** Broken files and directories are there but cannot be read. */
  datatype Node = File(content: seq<byte>) | BrokenFile | Dir(entries: seq<Entry>) | BrokenDir

  function FileNode(content: Option<seq<byte>>): Node {
    if content.Some? then File(content.value) else BrokenFile
  }

  /** Names in a directory are distinct path components, at every depth. */
  predicate WellFormed(entries: seq<Entry>) {
    && (forall i, j | 0 <= i < j < |entries| :: entries[i].name != entries[j].name)
    && (forall i | 0 <= i < |entries| :: IsComponent(entries[i].name) && WellFormedNode(entries[i].node))
  }

  predicate WellFormedNode(node: Node) {
    node.Dir? ==> WellFormed(node.entries)
  }

  /** What stands at a path. */
  function Lookup(entries: seq<Entry>, path: seq<string>): Option<Node>
    decreases |path|
  {
    if path == [] then None
    else
      var child := Child(entries, path[0]);
      if |path| == 1 || child.None? then child
      else if child.value.Dir? then Lookup(child.value.entries, path[1..])
      else None
  }

  function Child(entries: seq<Entry>, name: string): Option<Node> {
    if entries == [] then None
    else if entries[0].name == name then Some(entries[0].node)
    else Child(entries[1..], name)
  }

  lemma ChildFound(entries: seq<Entry>, name: string) returns (i: nat)
    requires Child(entries, name).Some?
    ensures i < |entries| && entries[i].name == name && Child(entries, name).value == entries[i].node
  {
    if entries[0].name == name {
      i := 0;
    } else {
      var k := ChildFound(entries[1..], name);
      i := k + 1;
    }
  }

  lemma NoSuchChild(entries: seq<Entry>, name: string)
    requires forall i | 0 <= i < |entries| :: entries[i].name != name
    ensures Child(entries, name) == None
  {
  }

  /** A file met on a walk: its path below the root and what reading it gives. */
  datatype Found = Found(path: seq<string>, content: Option<seq<byte>>)

  /** The files below `entries`, depth first in enumeration order. */
  function Files(entries: seq<Entry>, above: seq<string>): (found: seq<Found>)
    decreases entries
  {
    if entries == [] then []
    else NodeFiles(entries[0].node, above + [entries[0].name]) + Files(entries[1..], above)
  }

  function NodeFiles(node: Node, path: seq<string>): seq<Found>
    decreases node
  {
    match node
    case File(content) => [Found(path, Some(content))]
    case BrokenFile => [Found(path, None)]
    case Dir(entries) => Files(entries, path)
    case BrokenDir => []
  }

  /** No directory below `entries` fails to open. */
  predicate Readable(entries: seq<Entry>)
    decreases entries
  {
    entries != [] ==> NodeReadable(entries[0].node) && Readable(entries[1..])
  }

  predicate NodeReadable(node: Node)
    decreases node
  {
    !node.BrokenDir? && (node.Dir? ==> Readable(node.entries))
  }

  /** The walk meets a file exactly when a lookup of its path finds it. */
  lemma {:induction false} FilesAreLookups(entries: seq<Entry>, above: seq<string>, f: Found)
    requires WellFormed(entries)
    ensures f in Files(entries, above) <==>
            && above < f.path
            && Lookup(entries, f.path[|above|..]) == Some(FileNode(f.content))
    decreases entries
  {
    if entries == [] {
    } else {
      var head, tail := entries[0], entries[1..];
      FilesAreLookups(tail, above, f);
      NodeFilesAreLookups(head.node, above + [head.name], f);
      if above < f.path {
        var rest := f.path[|above|..];
        LookupSplits(entries, rest);
        assert f.path == above + rest;
        assert above + [head.name] <= f.path <==> rest[0] == head.name;
        assert f.path[|above| + 1..] == rest[1..];
      }
    }
  }

  lemma {:induction false} NodeFilesAreLookups(node: Node, path: seq<string>, f: Found)
    requires WellFormedNode(node)
    ensures f in NodeFiles(node, path) <==>
            && path <= f.path
            && (if f.path == path then node == FileNode(f.content)
                else node.Dir? && Lookup(node.entries, f.path[|path|..]) == Some(FileNode(f.content)))
    decreases node
  {
    if node.Dir? {
      FilesAreLookups(node.entries, path, f);
    }
  }

  /** A lookup either starts at the first entry or stays in the others. */
  lemma {:induction false} LookupSplits(entries: seq<Entry>, path: seq<string>)
    requires WellFormed(entries) && entries != [] && path != []
    ensures var head := entries[0];
            Lookup(entries, path) ==
              if path[0] != head.name then Lookup(entries[1..], path)
              else if |path| == 1 then Some(head.node)
              else if head.node.Dir? then Lookup(head.node.entries, path[1..])
              else None
    ensures path[0] == entries[0].name ==> Lookup(entries[1..], path) == None
  {
    if path[0] == entries[0].name {
      NoSuchChild(entries[1..], path[0]);
    }
  }

  /** Paths found on a walk are made of components. */
  lemma {:induction false} LookupComponents(entries: seq<Entry>, path: seq<string>)
    requires WellFormed(entries) && Lookup(entries, path).Some?
    ensures AreComponents(path)
    decreases |path|
  {
    var i := ChildFound(entries, path[0]);
    if |path| <= 1 {
    } else {
      LookupComponents(entries[i].node.entries, path[1..]);
      assert path == [path[0]] + path[1..];
    }
  }

  // ---- What cannot be read -------------------------------------------------------

  lemma {:induction false} ReadableIffAll(entries: seq<Entry>)
    ensures Readable(entries) <==> forall i | 0 <= i < |entries| :: NodeReadable(entries[i].node)
  {
    if entries == [] {
    } else {
      ReadableIffAll(entries[1..]);
      assert forall i | 0 < i < |entries| :: entries[i] == entries[1..][i - 1];
    }
  }

  /** A tree can be walked exactly when no path leads to a directory that cannot be opened. */
  lemma {:induction false} ReadableIffNoBrokenDir(entries: seq<Entry>)
    requires WellFormed(entries)
    ensures Readable(entries) <==> forall path :: Lookup(entries, path) != Some(BrokenDir)
    decreases entries
  {
    if entries == [] {
    } else {
      var head, tail := entries[0], entries[1..];
      assert Readable(entries) <==> NodeReadable(head.node) && Readable(tail);
      assert NodeReadable(head.node) <==>
          head.node != BrokenDir && (head.node.Dir? ==> Readable(head.node.entries));
      ReadableIffNoBrokenDir(tail);
      if head.node.Dir? {
        ReadableIffNoBrokenDir(head.node.entries);
      }
      if Readable(entries) {
        forall path ensures Lookup(entries, path) != Some(BrokenDir) {
          if path != [] {
            LookupSplits(entries, path);
          }
        }
      } else if !Readable(tail) {
        var path :| Lookup(tail, path) == Some(BrokenDir);
        LookupSplits(entries, path);
        assert Lookup(entries, path) == Some(BrokenDir);
      } else if head.node == BrokenDir {
        LookupSplits(entries, [head.name]);
        assert Lookup(entries, [head.name]) == Some(BrokenDir);
      } else {
        var path :| Lookup(head.node.entries, path) == Some(BrokenDir);
        var whole := [head.name] + path;
        assert whole[1..] == path;
        assert Lookup(entries, whole) == Some(BrokenDir);
      }
    }
  }

  // ---- The order of enumeration ----------------------------------------------------

  /** The same tree with its directories listing their entries in another order: the
      same names at every depth, with the same leaves. */
  predicate Reordered(a: seq<Entry>, b: seq<Entry>)
    decreases a
  {
    && (forall i | 0 <= i < |a| ::
          var twin := Child(b, a[i].name);
          twin.Some? && ReorderedNode(a[i].node, twin.value))
    && (forall j | 0 <= j < |b| :: Child(a, b[j].name).Some?)
  }

  predicate ReorderedNode(a: Node, b: Node)
    decreases a
  {
    if a.Dir? && b.Dir? then Reordered(a.entries, b.entries) else a == b
  }

  lemma {:induction false} ChildAt(entries: seq<Entry>, i: nat)
    requires WellFormed(entries) && i < |entries|
    ensures Child(entries, entries[i].name) == Some(entries[i].node)
  {
    if i == 0 {
    } else {
      ChildAt(entries[1..], i - 1);
    }
  }

  /** Any permutation of a directory's entries is a reordering. */
  lemma {:induction false} PermutedIsReordered(a: seq<Entry>, b: seq<Entry>)
    requires WellFormed(a) && WellFormed(b) && multiset(a) == multiset(b)
    ensures Reordered(a, b)
    decreases a
  {
    forall i: nat | i < |a|
      ensures Child(b, a[i].name) == Some(a[i].node) && ReorderedNode(a[i].node, a[i].node)
    {
      assert a[i] in multiset(b);
      var j :| 0 <= j < |b| && b[j] == a[i];
      ChildAt(b, j);
      if a[i].node.Dir? {
        PermutedIsReordered(a[i].node.entries, a[i].node.entries);
      }
    }
    forall j: nat | j < |b| ensures Child(a, b[j].name).Some? {
      assert b[j] in multiset(a);
      var i :| 0 <= i < |a| && a[i] == b[j];
      ChildAt(a, i);
    }
  }

  lemma {:induction false} ChildReordered(a: seq<Entry>, b: seq<Entry>, name: string)
    requires Reordered(a, b)
    ensures Child(a, name).Some? <==> Child(b, name).Some?
    ensures Child(a, name).Some? ==> ReorderedNode(Child(a, name).value, Child(b, name).value)
  {
    hide Child;
    if Child(a, name).Some? {
      var i := ChildFound(a, name);
    } else if Child(b, name).Some? {
      var j := ChildFound(b, name);
    }
  }

  lemma {:induction false} ChildWellFormed(entries: seq<Entry>, name: string)
    requires WellFormed(entries) && Child(entries, name).Some?
    ensures WellFormedNode(Child(entries, name).value)
  {
    var i := ChildFound(entries, name);
  }

  /** Looking a path up does not depend on the order. */
  lemma {:induction false} LookupReordered(a: seq<Entry>, b: seq<Entry>, path: seq<string>)
    requires WellFormed(a) && WellFormed(b) && Reordered(a, b)
    ensures Lookup(a, path).Some? <==> Lookup(b, path).Some?
    ensures Lookup(a, path).Some? ==> ReorderedNode(Lookup(a, path).value, Lookup(b, path).value)
    decreases |path|
  {
    hide Reordered, WellFormed, Child;
    if path == [] {
    } else {
      ChildReordered(a, b, path[0]);
      if |path| > 1 && Child(a, path[0]).Some? {
        ChildWellFormed(a, path[0]);
        ChildWellFormed(b, path[0]);
        var x, y := Child(a, path[0]).value, Child(b, path[0]).value;
        if x.Dir? && y.Dir? {
          LookupReordered(x.entries, y.entries, path[1..]);
        }
      }
    }
  }

  /** A walk meets the same files with the same contents in either order. */
  lemma {:induction false} FilesReordered(a: seq<Entry>, b: seq<Entry>, f: Found)
    requires WellFormed(a) && WellFormed(b) && Reordered(a, b)
    ensures f in Files(a, []) <==> f in Files(b, [])
  {
    hide Reordered, WellFormed, Files, Lookup;
    FilesAreLookups(a, [], f);
    FilesAreLookups(b, [], f);
    LookupReordered(a, b, f.path[0..]);
  }

  /** Nor does it depend on the order whether a directory fails to open. */
  lemma {:induction false} ReadableReordered(a: seq<Entry>, b: seq<Entry>)
    requires WellFormed(a) && WellFormed(b) && Reordered(a, b)
    ensures Readable(a) <==> Readable(b)
    decreases a
  {
    hide WellFormed, Reordered, ReorderedNode, Readable, NodeReadable, Child;
    ReadableIffAll(a);
    ReadableIffAll(b);
    forall i: nat | i < |a| && Readable(b) ensures NodeReadable(a[i].node) {
      ChildAt(a, i);
      ChildReordered(a, b, a[i].name);
      ChildWellFormed(a, a[i].name);
      ChildWellFormed(b, a[i].name);
      var j := ChildFound(b, a[i].name);
      NodeReadableReordered(a[i].node, b[j].node);
    }
    forall j: nat | j < |b| && Readable(a) ensures NodeReadable(b[j].node) {
      ChildAt(b, j);
      ChildReordered(a, b, b[j].name);
      ChildWellFormed(a, b[j].name);
      ChildWellFormed(b, b[j].name);
      var i := ChildFound(a, b[j].name);
      NodeReadableReordered(a[i].node, b[j].node);
    }
  }

  lemma {:induction false} NodeReadableReordered(a: Node, b: Node)
    requires WellFormedNode(a) && WellFormedNode(b) && ReorderedNode(a, b)
    ensures NodeReadable(a) <==> NodeReadable(b)
    decreases a
  {
    hide Reordered, Readable, WellFormed;
    if a.Dir? && b.Dir? {
      ReadableReordered(a.entries, b.entries);
    }
  }
}
