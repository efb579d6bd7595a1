/** The folder forest of a browse tab (src/BrowseListModel.cpp): directory strings sent by a peer, in canonical
    form, split into nodes of bounded depth. A node is identified by its full path, the key it is kept under. */
module FolderForest {
  import opened Common

  predicate EndsInSeparator(s: string) {
    s != "" && IsSeparator(s[|s| - 1])
  }

  /** Runs of separators collapsed to their first one. */
  function Collapsed(path: string): string {
    if path == "" then ""
    else
      var before, c := path[..|path| - 1], path[|path| - 1];
      if IsSeparator(c) && EndsInSeparator(before) then Collapsed(before) else Collapsed(before) + [c]
  }

  function Normalized(path: string): string {
    var collapsed := Collapsed(path);
    if EndsInSeparator(collapsed) then collapsed[..|collapsed| - 1] else collapsed
  }

  /** A key: no empty segment and nothing after the last one. */
  predicate Canonical(path: string) {
    && path != ""
    && !EndsInSeparator(path)
    && forall i | 0 < i < |path| :: !(IsSeparator(path[i - 1]) && IsSeparator(path[i]))
  }

  method NormalizeDirectory(path: string) returns (normalized: string)
    ensures normalized == Normalized(path)
  {
    normalized := "";
    var lastWasSeparator := false;
    for i := 0 to |path|
      invariant normalized == Collapsed(path[..i])
      invariant lastWasSeparator == EndsInSeparator(path[..i]) == EndsInSeparator(normalized)
    {
      assert path[..i + 1][..i] == path[..i];
      var separator := IsSeparator(path[i]);
      if separator && lastWasSeparator {
        continue;
      }
      normalized := normalized + [path[i]];
      lastWasSeparator := separator;
    }
    assert path[..|path|] == path;
    if lastWasSeparator && normalized != "" {
      normalized := normalized[..|normalized| - 1];
    }
  }

  lemma {:induction false} CollapsedShape(path: string)
    ensures EndsInSeparator(Collapsed(path)) == EndsInSeparator(path)
    ensures forall i | 0 < i < |Collapsed(path)| ::
              !(IsSeparator(Collapsed(path)[i - 1]) && IsSeparator(Collapsed(path)[i]))
  {
    if path != "" {
      CollapsedShape(path[..|path| - 1]);
    }
  }

  /** What is kept is a key, unless nothing but separators was sent. */
  lemma NormalizedIsCanonical(path: string)
    ensures Normalized(path) == "" || Canonical(Normalized(path))
  {
    CollapsedShape(path);
  }

  /** The non-empty segments of a path so far, and the one still open at its end. */
  function Split(path: string): (seq<string>, string) {
    if path == "" then ([], "")
    else
      var (closed, open) := Split(path[..|path| - 1]);
      var c := path[|path| - 1];
      if !IsSeparator(c) then (closed, open + [c])
      else if open == "" then (closed, "")
      else (closed + [open], "")
  }

  function Segments(path: string): seq<string> {
    var (closed, open) := Split(path);
    if open == "" then closed else closed + [open]
  }

  lemma {:induction false} CollapsedSplit(path: string)
    ensures Split(Collapsed(path)) == Split(path)
    ensures EndsInSeparator(path) ==> Split(path).1 == ""
  {
    if path != "" {
      var before, c := path[..|path| - 1], path[|path| - 1];
      CollapsedSplit(before);
      assert (Collapsed(before) + [c])[..|Collapsed(before)|] == Collapsed(before);
    }
  }

  /** Every spelling keeps its segments, so spellings of one directory share them. */
  lemma NormalizedKeepsSegments(path: string)
    ensures Segments(Normalized(path)) == Segments(path)
  {
    CollapsedSplit(path);
    CollapsedShape(path);
  }

  lemma {:induction false} CollapsedFixed(path: string)
    requires forall i | 0 < i < |path| :: !(IsSeparator(path[i - 1]) && IsSeparator(path[i]))
    ensures Collapsed(path) == path
  {
    if path != "" {
      var before := path[..|path| - 1];
      CollapsedFixed(before);
      assert before + [path[|path| - 1]] == path;
    }
  }

  /** A key is its own canonical form, so keys are exactly what normalising produces. */
  lemma CanonicalIsFixed(path: string)
    ensures Normalized(path) == path <==> path == "" || Canonical(path)
  {
    NormalizedIsCanonical(path);
    if Canonical(path) {
      CollapsedFixed(path);
    }
  }

  // ----- Nodes -----

  const MAX_FOLDER_DEPTH: nat := 64

  datatype Node = Node(name: string, parent: Option<string>, depth: nat)

  datatype Forest = Forest(nodes: map<string, Node>, roots: seq<string>)

  /** The index of the last separator, or -1. */
  function LastSeparator(path: string): (i: int)
    ensures -1 <= i < |path|
    ensures i >= 0 ==> IsSeparator(path[i])
    ensures forall j | i < j < |path| :: !IsSeparator(path[j])
  {
    if path == "" then -1 else if EndsInSeparator(path) then |path| - 1 else LastSeparator(path[..|path| - 1])
  }

  function WithRoot(f: Forest, path: string, name: string): Forest {
    Forest(f.nodes[path := Node(name, None, 0)], f.roots + [path])
  }

  function WithChild(f: Forest, path: string, name: string, parent: string): Forest
    requires parent in f.nodes
  {
    f.(nodes := f.nodes[path := Node(name, Some(parent), f.nodes[parent].depth + 1)])
  }

  /** The forest once `path` has a node; `level` is the recursion level this was asked from. */
  function Ensured(f: Forest, path: string, level: nat): (g: Forest)
    ensures path in g.nodes
    decreases |path|
  {
    if path in f.nodes then f
    else
      var slash := LastSeparator(path);
      if slash == -1 || level >= MAX_FOLDER_DEPTH then WithRoot(f, path, path)
      else if slash == 0 then WithRoot(f, path, path[1..])
      else
        var g := Ensured(f, path[..slash], level + 1);
        if g.nodes[path[..slash]].depth + 1 < MAX_FOLDER_DEPTH
        then WithChild(g, path, path[slash + 1..], path[..slash])
        else WithRoot(g, path, path)
  }

  /** A child's key is its parent's key, a separator and its own name. */
  predicate Joins(key: string, parent: string, name: string) {
    && |key| == |parent| + 1 + |name|
    && key[..|parent|] == parent
    && IsSeparator(key[|parent|])
    && key[|parent| + 1..] == name
    && name != ""
    && forall i | 0 <= i < |name| :: !IsSeparator(name[i])
  }

  /** A root is named by its whole key, or by all of it that follows a leading separator, its only one. */
  predicate NamesRoot(key: string, name: string) {
    && name != ""
    && (name == key || (key != "" && IsSeparator(key[0]) && key[1..] == name && LastSeparator(key) == 0))
  }

  ghost predicate NameOk(f: Forest, key: string)
    requires key in f.nodes
  {
    var n := f.nodes[key];
    match n.parent
    case None => NamesRoot(key, n.name)
    case Some(p) => Joins(key, p, n.name)
  }

  ghost predicate LinkOk(f: Forest, key: string)
    requires key in f.nodes
  {
    var n := f.nodes[key];
    && n.depth < MAX_FOLDER_DEPTH
    && match n.parent
       case None => n.depth == 0 && key in f.roots
       case Some(p) => p in f.nodes && n.depth == f.nodes[p].depth + 1
  }

  /** Depths stay below the cap, links go up one level at a time, and the roots are the parentless nodes. */
  ghost predicate LinksOk(f: Forest) {
    && (forall key {:trigger LinkOk(f, key)} | key in f.nodes :: LinkOk(f, key))
    && NoDuplicates(f.roots)
    && (forall key | key in f.roots :: key in f.nodes && f.nodes[key].parent == None)
  }

  ghost predicate ForestOk(f: Forest) {
    LinksOk(f) && forall key {:trigger NameOk(f, key)} | key in f.nodes :: NameOk(f, key)
  }

  lemma CanonicalParent(path: string)
    requires Canonical(path) && LastSeparator(path) > 0
    ensures var slash := LastSeparator(path);
            Canonical(path[..slash]) && Joins(path, path[..slash], path[slash + 1..])
  {}

  /** The forest has only grown, and only by nodes on the way to `path`. */
  ghost predicate Extends(f: Forest, g: Forest, path: string) {
    && f.roots <= g.roots
    && (forall key | key in f.nodes :: key in g.nodes && g.nodes[key] == f.nodes[key])
    && (forall key | key in g.nodes && key !in f.nodes :: key <= path)
  }

  lemma ExtendsTransitive(f: Forest, g: Forest, h: Forest, parent: string, path: string)
    requires Extends(f, g, parent) && Extends(g, h, path) && parent <= path
    ensures Extends(f, h, path)
  {}

  lemma WithRootOk(f: Forest, path: string, name: string)
    requires ForestOk(f) && path !in f.nodes && NamesRoot(path, name)
    ensures ForestOk(WithRoot(f, path, name)) && Extends(f, WithRoot(f, path, name), path)
  {
    var g := WithRoot(f, path, name);
    forall key | key in g.nodes ensures LinkOk(g, key) && NameOk(g, key) {
      if key != path {
        assert LinkOk(f, key) && NameOk(f, key);
      } else {
        assert g.roots[|f.roots|] == path;
      }
    }
  }

  lemma WithChildOk(f: Forest, path: string, name: string, parent: string)
    requires ForestOk(f) && path !in f.nodes && parent in f.nodes
    requires f.nodes[parent].depth + 1 < MAX_FOLDER_DEPTH && Joins(path, parent, name)
    ensures ForestOk(WithChild(f, path, name, parent)) && Extends(f, WithChild(f, path, name, parent), path)
  {
    var g := WithChild(f, path, name, parent);
    forall key | key in g.nodes ensures LinkOk(g, key) && NameOk(g, key) {
      if key != path {
        assert LinkOk(f, key) && NameOk(f, key);
      }
    }
  }

  /** However strings compose, asking for a canonical path keeps the forest within its bounds, leaves every
      node it already had as it was, and adds only nodes on the way to that path. */
  lemma {:induction false} EnsuredOk(f: Forest, path: string, level: nat)
    requires ForestOk(f) && Canonical(path)
    ensures ForestOk(Ensured(f, path, level)) && Extends(f, Ensured(f, path, level), path)
    decreases |path|
  {
    var slash := LastSeparator(path);
    if path !in f.nodes && slash > 0 && level < MAX_FOLDER_DEPTH {
      CanonicalParent(path);
      EnsuredOk(f, path[..slash], level + 1);
      EnsuredStep(f, path, level);
    } else {
      EnsuredLeaf(f, path, level);
    }
  }

  lemma EnsuredLeaf(f: Forest, path: string, level: nat)
    requires ForestOk(f) && Canonical(path)
    requires path in f.nodes || LastSeparator(path) <= 0 || level >= MAX_FOLDER_DEPTH
    ensures ForestOk(Ensured(f, path, level)) && Extends(f, Ensured(f, path, level), path)
  {
    if path !in f.nodes {
      var name := if LastSeparator(path) == 0 && level < MAX_FOLDER_DEPTH then path[1..] else path;
      WithRootOk(f, path, name);
      assert Ensured(f, path, level) == WithRoot(f, path, name);
    }
  }

  lemma EnsuredStep(f: Forest, path: string, level: nat)
    requires Canonical(path) && path !in f.nodes && LastSeparator(path) > 0 && level < MAX_FOLDER_DEPTH
    requires var parent := path[..LastSeparator(path)];
             var g := Ensured(f, parent, level + 1);
             ForestOk(g) && Extends(f, g, parent) && Joins(path, parent, path[LastSeparator(path) + 1..])
    ensures ForestOk(Ensured(f, path, level)) && Extends(f, Ensured(f, path, level), path)
  {
    var slash := LastSeparator(path);
    var parent, name := path[..slash], path[slash + 1..];
    var g := Ensured(f, parent, level + 1);
    var h := Ensured(f, path, level);
    assert path !in g.nodes by {
      assert |path| > |parent|;
    }
    if g.nodes[parent].depth + 1 < MAX_FOLDER_DEPTH {
      WithChildOk(g, path, name, parent);
      assert h == WithChild(g, path, name, parent);
    } else {
      WithRootOk(g, path, path);
      assert h == WithRoot(g, path, path);
    }
    ExtendsTransitive(f, g, h, parent, path);
  }

  // ----- Where a folder hangs -----

  /** A new folder hangs below its parent directory, under its own last segment, unless it has none or one of the
      two bounds is met: then it is a root under its whole path, less a separator that leads it. */
  lemma EnsuredHangs(f: Forest, path: string, level: nat)
    requires ForestOk(f) && Canonical(path) && path !in f.nodes
    ensures var g, slash := Ensured(f, path, level), LastSeparator(path);
            var node := g.nodes[path];
            && (slash > 0 && level < MAX_FOLDER_DEPTH ==> path[..slash] in g.nodes)
            && node == if slash > 0 && level < MAX_FOLDER_DEPTH && g.nodes[path[..slash]].depth + 1 < MAX_FOLDER_DEPTH
                       then Node(path[slash + 1..], Some(path[..slash]), g.nodes[path[..slash]].depth + 1)
                       else Node(if slash == 0 && level < MAX_FOLDER_DEPTH then path[1..] else path, None, 0)
  {
    var slash := LastSeparator(path);
    if slash > 0 && level < MAX_FOLDER_DEPTH {
      CanonicalParent(path);
      EnsuredOk(f, path[..slash], level + 1);
    }
  }

  /** How many separators a path has past its first character: how deep the directory lies. */
  function Depth(path: string): nat {
    if path == "" then 0
    else Depth(path[..|path| - 1]) + if |path| > 1 && IsSeparator(path[|path| - 1]) then 1 else 0
  }

  /** The folders nest as their paths say. */
  ghost predicate Nested(f: Forest) {
    forall key {:trigger f.nodes[key]} | key in f.nodes ::
      && Canonical(key)
      && f.nodes[key].depth == Depth(key)
      && f.nodes[key].parent == if LastSeparator(key) > 0 then Some(key[..LastSeparator(key)]) else None
  }

  /** The directory a path lies in is one less deep; a path without one lies at the top. */
  lemma {:induction false} ParentDepth(path: string)
    ensures var slash := LastSeparator(path);
            if slash > 0 then Depth(path) == Depth(path[..slash]) + 1 else Depth(path) == 0
    decreases |path|
  {
    if path != "" && !EndsInSeparator(path) {
      var before, slash := path[..|path| - 1], LastSeparator(path);
      ParentDepth(before);
      assert slash > 0 ==> before[..slash] == path[..slash];
    }
  }

  lemma RootNested(f: Forest, path: string, name: string)
    requires Nested(f) && Canonical(path) && LastSeparator(path) <= 0
    ensures Nested(WithRoot(f, path, name))
  {
    ParentDepth(path);
  }

  lemma ChildNested(f: Forest, path: string, name: string)
    requires Nested(f) && Canonical(path) && LastSeparator(path) > 0 && path[..LastSeparator(path)] in f.nodes
    ensures Nested(WithChild(f, path, name, path[..LastSeparator(path)]))
  {
    ParentDepth(path);
  }

  /** As long as no directory lies deeper than the cap the caps are never met: folders hang exactly as their paths
      say, each below its parent directory. */
  lemma {:induction false} NestsAsNamed(f: Forest, path: string, level: nat)
    requires Nested(f) && Canonical(path) && level + Depth(path) < MAX_FOLDER_DEPTH
    ensures Nested(Ensured(f, path, level))
    decreases |path|
  {
    var slash := LastSeparator(path);
    if path !in f.nodes && slash > 0 {
      ParentDepth(path);
      CanonicalParent(path);
      NestsAsNamed(f, path[..slash], level + 1);
      ChildNested(Ensured(f, path[..slash], level + 1), path, path[slash + 1..]);
    } else if path !in f.nodes {
      RootNested(f, path, if slash == 0 then path[1..] else path);
    }
  }
}
