/** What a browse tab shows (src/BrowseListModel.cpp): results filed under the forest's folders, and the
    traversal the control makes of them. */
module BrowseTree {
  import opened Common
  import opened FolderForest

  /** A result, known by its address; `directory` is what the peer said, `parent` the result it is grouped under,
      `passes` whether the filter lets it through and `shown` whether it lets it or one grouped under it through. */
  datatype SearchFile =
    SearchFile(address: nat, directory: string, parent: Option<SearchFile>, passes: bool, shown: bool)

  datatype Tree = Tree(
    forest: Forest,
    subfolders: map<string, seq<string>>,
    files: map<string, seq<SearchFile>>,
    loose: seq<SearchFile>,
    fileParents: map<SearchFile, string>)

  // ----- What filing the results amounts to -----

  predicate Wanted(f: SearchFile) {
    f.parent == None && f.shown
  }

  function WantedOf(results: seq<SearchFile>): seq<SearchFile> {
    if results == [] then []
    else
      var before, f := WantedOf(results[..|results| - 1]), results[|results| - 1];
      if Wanted(f) then before + [f] else before
  }

  /** The wanted results whose directory is `key`, in order; the empty key is no directory at all. */
  function FiledUnder(results: seq<SearchFile>, key: string): seq<SearchFile> {
    if results == [] then []
    else
      var before, f := FiledUnder(results[..|results| - 1], key), results[|results| - 1];
      if Wanted(f) && Normalized(f.directory) == key then before + [f] else before
  }

  ghost predicate IsChildList(f: Forest, key: string, children: seq<string>) {
    && NoDuplicates(children)
    && forall c {:trigger c in children} :: c in children <==> c in f.nodes && f.nodes[c].parent == Some(key)
  }

  /** The forest is linked both ways: each node's list holds exactly the nodes that name it as parent. */
  ghost predicate Linked(t: Tree) {
    && LinksOk(t.forest)
    && t.subfolders.Keys == t.forest.nodes.Keys == t.files.Keys
    && forall key {:trigger t.subfolders[key]} | key in t.forest.nodes :: IsChildList(t.forest, key, t.subfolders[key])
  }

  /** A result that belongs under a folder. */
  predicate Placed(f: SearchFile) {
    Wanted(f) && Normalized(f.directory) != ""
  }

  ghost predicate ListsRight(t: Tree, results: seq<SearchFile>) {
    && t.files.Keys == t.forest.nodes.Keys && "" !in t.files
    && (forall key {:trigger t.files[key]} | key in t.files :: t.files[key] == FiledUnder(results, key))
    && t.loose == FiledUnder(results, "")
  }

  ghost predicate ParentsRight(t: Tree, results: seq<SearchFile>) {
    && (forall f {:trigger f in t.fileParents} :: f in t.fileParents <==> f in results && Placed(f))
    && (forall f {:trigger t.fileParents[f]} | f in t.fileParents ::
          t.fileParents[f] == Normalized(f.directory) && t.fileParents[f] in t.forest.nodes)
  }

  /** Every wanted result is filed under its own directory and remembered there. */
  ghost predicate Filed(t: Tree, results: seq<SearchFile>) {
    ListsRight(t, results) && ParentsRight(t, results)
  }

  // ----- What the control asks -----

  /** Whether anything at all is under a folder, at any depth. */
  ghost predicate HasContent(t: Tree, key: string)
    requires Linked(t) && key in t.forest.nodes
    decreases MAX_FOLDER_DEPTH - t.forest.nodes[key].depth
  {
    assert LinkOk(t.forest, key);
    t.files[key] != [] ||
    exists c :: c in t.subfolders[key] && ChildOf(t, c, key) && HasContent(t, c)
  }

  ghost predicate ChildOf(t: Tree, c: string, key: string)
    requires Linked(t) && key in t.forest.nodes
    ensures ChildOf(t, c, key) ==> c in t.forest.nodes && t.forest.nodes[c].depth == t.forest.nodes[key].depth + 1
                                   && t.forest.nodes[c].depth < MAX_FOLDER_DEPTH
  {
    assert IsChildList(t.forest, key, t.subfolders[key]);
    assert c in t.subfolders[key] ==> LinkOk(t.forest, c);
    c in t.subfolders[key]
  }

  /** The folders worth a row. */
  ghost function Drawn(t: Tree): set<string>
    requires Linked(t)
  {
    set k | k in t.forest.nodes && HasContent(t, k)
  }

  datatype Item = Top | Folder(key: string) | File(file: SearchFile)

  function FolderItems(drawn: set<string>, keys: seq<string>): seq<Item> {
    if keys == [] then []
    else
      var last := keys[|keys| - 1];
      FolderItems(drawn, keys[..|keys| - 1]) + (if last in drawn then [Folder(last)] else [])
  }

  function FileItems(files: seq<SearchFile>): seq<Item> {
    seq(|files|, i requires 0 <= i < |files| => File(files[i]))
  }

  /** The rows drawn under an item, folders before results. What a result groups is not expanded here. */
  ghost function ChildrenOf(t: Tree, drawn: set<string>, item: Item): seq<Item>
    requires Linked(t) && (item.Folder? ==> item.key in t.forest.nodes)
  {
    match item
    case Top => FolderItems(drawn, t.forest.roots) + FileItems(t.loose)
    case Folder(key) =>
      assert IsChildList(t.forest, key, t.subfolders[key]);
      FolderItems(drawn, t.subfolders[key]) + FileItems(t.files[key])
    case File(_) => []
  }

  ghost function ParentOf(t: Tree, item: Item): Item
    requires item.Folder? ==> item.key in t.forest.nodes
  {
    match item
    case Top => Top
    case Folder(key) =>
      (match t.forest.nodes[key].parent
       case Some(p) => Folder(p)
       case None => Top)
    case File(f) =>
      if f.parent != None then File(f.parent.value)
      else if f in t.fileParents then Folder(t.fileParents[f]) else Top
  }

  // ----- The walk -----

  /** The folder `key` sits `depth` levels down, where there may be folders at all. */
  ghost predicate SitsAt(t: Tree, key: string, depth: nat) {
    key in t.forest.nodes && t.forest.nodes[key].depth == depth < MAX_FOLDER_DEPTH
  }

  /** All results met below the folders in `keys`, going only through the drawn ones. */
  ghost function WalkAll(t: Tree, drawn: set<string>, keys: seq<string>, depth: nat): multiset<SearchFile>
    requires Linked(t)
    decreases MAX_FOLDER_DEPTH - depth, |keys|
  {
    if keys == [] then multiset{}
    else
      var last := keys[|keys| - 1];
      WalkAll(t, drawn, keys[..|keys| - 1], depth) +
      if last in drawn && SitsAt(t, last, depth)
      then WalkAll(t, drawn, t.subfolders[last], depth + 1) + multiset(t.files[last]) else multiset{}
  }

  ghost function Walk(t: Tree, drawn: set<string>, key: string): multiset<SearchFile>
    requires Linked(t) && key in t.forest.nodes
  {
    WalkAll(t, drawn, t.subfolders[key], t.forest.nodes[key].depth + 1) + multiset(t.files[key])
  }

  lemma ChildDepths(t: Tree, key: string)
    requires Linked(t) && key in t.forest.nodes
    ensures SitsAt(t, key, t.forest.nodes[key].depth)
    ensures forall c | c in t.subfolders[key] :: SitsAt(t, c, t.forest.nodes[key].depth + 1)
  {
    assert LinkOk(t.forest, key);
    forall c | c in t.subfolders[key] ensures SitsAt(t, c, t.forest.nodes[key].depth + 1) {
      assert IsChildList(t.forest, key, t.subfolders[key]);
      assert LinkOk(t.forest, c);
    }
  }

  /** All results met when the rows in `items` are opened, and the rows under those, and so on. */
  ghost function Visit(t: Tree, drawn: set<string>, items: seq<Item>, depth: nat): multiset<SearchFile>
    requires Linked(t)
    decreases MAX_FOLDER_DEPTH - depth, |items|
  {
    if items == [] then multiset{}
    else
      var last := items[|items| - 1];
      Visit(t, drawn, items[..|items| - 1], depth) +
      match last
      case File(f) => multiset{f}
      case Folder(key) =>
        if SitsAt(t, key, depth) then Visit(t, drawn, ChildrenOf(t, drawn, last), depth + 1) else multiset{}
      case Top => multiset{}
  }

  lemma {:induction false} FolderItemsMembers(drawn: set<string>, keys: seq<string>, x: Item)
    ensures x in FolderItems(drawn, keys) <==> x.Folder? && x.key in keys && x.key in drawn
    decreases |keys|
  {
    if keys != [] {
      FolderItemsMembers(drawn, keys[..|keys| - 1], x);
    }
  }

  lemma {:induction false} VisitJoins(t: Tree, drawn: set<string>, a: seq<Item>, b: seq<Item>, depth: nat)
    requires Linked(t)
    ensures Visit(t, drawn, a + b, depth) == Visit(t, drawn, a, depth) + Visit(t, drawn, b, depth)
    decreases |b|
  {
    if b == [] {
      assert a + b == a;
    } else {
      assert (a + b)[..|a + b| - 1] == a + b[..|b| - 1];
      VisitJoins(t, drawn, a, b[..|b| - 1], depth);
    }
  }

  lemma {:induction false} VisitFiles(t: Tree, drawn: set<string>, files: seq<SearchFile>, depth: nat)
    requires Linked(t)
    ensures Visit(t, drawn, FileItems(files), depth) == multiset(files)
    decreases |files|
  {
    if files == [] {
      assert FileItems(files) == [];
    } else {
      var before := files[..|files| - 1];
      assert FileItems(files)[..|files| - 1] == FileItems(before);
      VisitFiles(t, drawn, before, depth);
      assert files == before + [files[|files| - 1]];
    }
  }

  lemma OpenFolder(t: Tree, drawn: set<string>, key: string, depth: nat)
    requires Linked(t) && key in t.forest.nodes
    ensures Visit(t, drawn, ChildrenOf(t, drawn, Folder(key)), depth) ==
            Visit(t, drawn, FolderItems(drawn, t.subfolders[key]), depth) + multiset(t.files[key])
  {
    VisitJoins(t, drawn, FolderItems(drawn, t.subfolders[key]), FileItems(t.files[key]), depth);
    VisitFiles(t, drawn, t.files[key], depth);
  }

  /** Opening the row of a folder that has one, after the rows before it. */
  lemma VisitSnoc(t: Tree, drawn: set<string>, items: seq<Item>, key: string, depth: nat)
    requires Linked(t) && SitsAt(t, key, depth)
    ensures Visit(t, drawn, items + [Folder(key)], depth) ==
            Visit(t, drawn, items, depth) +
            (Visit(t, drawn, FolderItems(drawn, t.subfolders[key]), depth + 1) + multiset(t.files[key]))
  {
    assert (items + [Folder(key)])[..|items|] == items;
    OpenFolder(t, drawn, key, depth + 1);
  }

  lemma WalkSnoc(t: Tree, drawn: set<string>, keys: seq<string>, depth: nat)
    requires Linked(t) && keys != []
    ensures var before, last := keys[..|keys| - 1], keys[|keys| - 1];
            WalkAll(t, drawn, keys, depth) == WalkAll(t, drawn, before, depth) +
            (if last in drawn && SitsAt(t, last, depth)
             then WalkAll(t, drawn, t.subfolders[last], depth + 1) + multiset(t.files[last]) else multiset{})
  {
  }

  lemma ItemsSnoc(drawn: set<string>, keys: seq<string>)
    requires keys != []
    ensures var before, last := keys[..|keys| - 1], keys[|keys| - 1];
            FolderItems(drawn, keys) ==
            if last in drawn then FolderItems(drawn, before) + [Folder(last)] else FolderItems(drawn, before)
  {
  }

  /** Opening rows one by one meets the same results as the walk over keys. */
  lemma {:induction false} VisitIsWalk(t: Tree, drawn: set<string>, keys: seq<string>, depth: nat)
    requires Linked(t) && forall k | k in keys :: SitsAt(t, k, depth)
    ensures Visit(t, drawn, FolderItems(drawn, keys), depth) == WalkAll(t, drawn, keys, depth)
    decreases MAX_FOLDER_DEPTH - depth, |keys|
  {
    if keys != [] {
      var before, last := keys[..|keys| - 1], keys[|keys| - 1];
      assert last in keys;
      VisitIsWalk(t, drawn, before, depth);
      ItemsSnoc(drawn, keys);
      WalkSnoc(t, drawn, keys, depth);
      if last in drawn {
        ChildDepths(t, last);
        VisitIsWalk(t, drawn, t.subfolders[last], depth + 1);
        VisitSnoc(t, drawn, FolderItems(drawn, before), last, depth);
      }
    }
  }

  lemma RootsSitAtTop(t: Tree)
    requires Linked(t)
    ensures forall k | k in t.forest.roots :: SitsAt(t, k, 0)
  {
    forall k | k in t.forest.roots ensures SitsAt(t, k, 0) {
      assert LinkOk(t.forest, k);
    }
  }

  // ----- Ancestors -----

  /** `n` is `key` or lies on its chain of parents. */
  ghost predicate Above(f: Forest, n: string, key: string)
    requires LinksOk(f) && key in f.nodes
    decreases f.nodes[key].depth
  {
    assert LinkOk(f, key);
    n == key || (f.nodes[key].parent.Some? && Above(f, n, f.nodes[key].parent.value))
  }

  lemma {:induction false} AboveDepth(f: Forest, n: string, key: string)
    requires LinksOk(f) && key in f.nodes && Above(f, n, key)
    ensures n in f.nodes && f.nodes[n].depth <= f.nodes[key].depth
    ensures f.nodes[n].depth == f.nodes[key].depth ==> n == key
    decreases f.nodes[key].depth
  {
    assert LinkOk(f, key);
    if n != key {
      AboveDepth(f, n, f.nodes[key].parent.value);
    }
  }

  lemma {:induction false} OneAtEachDepth(f: Forest, m: string, n: string, key: string)
    requires LinksOk(f) && key in f.nodes && Above(f, m, key) && Above(f, n, key)
    requires m in f.nodes && n in f.nodes && f.nodes[m].depth == f.nodes[n].depth
    ensures m == n
    decreases f.nodes[key].depth
  {
    assert LinkOk(f, key);
    AboveDepth(f, m, key);
    AboveDepth(f, n, key);
    if m != key && n != key {
      OneAtEachDepth(f, m, n, f.nodes[key].parent.value);
    }
  }

  lemma {:induction false} ParentIsAbove(f: Forest, n: string, c: string, key: string)
    requires LinksOk(f) && key in f.nodes && Above(f, c, key) && c in f.nodes && f.nodes[c].parent == Some(n)
    ensures Above(f, n, key)
    decreases f.nodes[key].depth
  {
    assert LinkOk(f, key) && LinkOk(f, c);
    if c == key {
      assert Above(f, n, n);
    } else {
      ParentIsAbove(f, n, c, f.nodes[key].parent.value);
    }
  }

  lemma {:induction false} NextBelow(f: Forest, n: string, key: string) returns (c: string)
    requires LinksOk(f) && key in f.nodes && Above(f, n, key) && n != key
    ensures c in f.nodes && f.nodes[c].parent == Some(n) && Above(f, c, key)
    decreases f.nodes[key].depth
  {
    assert LinkOk(f, key);
    var p := f.nodes[key].parent.value;
    if p == n {
      c := key;
    } else {
      c := NextBelow(f, n, p);
    }
  }

  lemma {:induction false} RootAbove(f: Forest, key: string) returns (r: string)
    requires LinksOk(f) && key in f.nodes
    ensures r in f.roots && Above(f, r, key)
    decreases f.nodes[key].depth
  {
    assert LinkOk(f, key);
    if f.nodes[key].parent == None {
      r := key;
    } else {
      r := RootAbove(f, f.nodes[key].parent.value);
    }
  }

  /** A folder is drawn if anything below it is. */
  lemma {:induction false} ContentRises(t: Tree, n: string, key: string)
    requires Linked(t) && key in t.forest.nodes && Above(t.forest, n, key) && HasContent(t, key)
    ensures n in t.forest.nodes && HasContent(t, n)
    decreases t.forest.nodes[key].depth
  {
    assert LinkOk(t.forest, key);
    if n != key {
      var p := t.forest.nodes[key].parent.value;
      assert IsChildList(t.forest, p, t.subfolders[p]);
      assert ChildOf(t, key, p);
      ContentRises(t, n, p);
    }
  }

  /** And only then: some folder at or below it holds results. */
  lemma {:induction false} ContentLiesBelow(t: Tree, n: string) returns (home: string)
    requires Linked(t) && n in t.forest.nodes && HasContent(t, n)
    ensures home in t.forest.nodes && Above(t.forest, n, home) && t.files[home] != []
    decreases MAX_FOLDER_DEPTH - t.forest.nodes[n].depth
  {
    assert LinkOk(t.forest, n);
    if t.files[n] != [] {
      home := n;
    } else {
      var c :| c in t.subfolders[n] && ChildOf(t, c, n) && HasContent(t, c);
      assert IsChildList(t.forest, n, t.subfolders[n]);
      home := ContentLiesBelow(t, c);
      ParentIsAbove(t.forest, n, c, home);
    }
  }

  /** Whatever is above a folder that holds results has a row. */
  ghost predicate DrawsAbove(t: Tree, drawn: set<string>, home: string)
    requires LinksOk(t.forest) && home in t.forest.nodes && home in t.files
  {
    t.files[home] != [] ==> forall n | Above(t.forest, n, home) :: n in drawn
  }

  lemma DrawnDrawsAbove(t: Tree, home: string)
    requires Linked(t) && home in t.forest.nodes
    ensures DrawsAbove(t, Drawn(t), home)
  {
    if t.files[home] != [] {
      forall n | Above(t.forest, n, home) ensures n in Drawn(t) {
        ContentRises(t, n, home);
      }
    }
  }

  // ----- Every wanted result exactly once -----

  /** `f` is filed nowhere but under `home`. */
  ghost predicate OnlyUnder(t: Tree, f: SearchFile, home: string) {
    home in t.files && forall key | key in t.files && key != home :: f !in t.files[key]
  }

  ghost predicate AnyAbove(f: Forest, keys: seq<string>, home: string)
    requires LinksOk(f) && home in f.nodes
  {
    exists k :: k in keys && Above(f, k, home)
  }

  /** Among distinct folders of one depth at most one is above a given folder. */
  lemma OneAbove(f: Forest, keys: seq<string>, home: string, depth: nat)
    requires LinksOk(f) && home in f.nodes && keys != [] && NoDuplicates(keys)
    requires forall k | k in keys :: k in f.nodes && f.nodes[k].depth == depth
    ensures var before, last := keys[..|keys| - 1], keys[|keys| - 1];
            && NoDuplicates(before)
            && (AnyAbove(f, keys, home) <==> AnyAbove(f, before, home) || Above(f, last, home))
            && !(AnyAbove(f, before, home) && Above(f, last, home))
  {
    var before, last := keys[..|keys| - 1], keys[|keys| - 1];
    assert forall k :: k in keys <==> k in before || k == last;
    forall k | k in before && Above(f, k, home) && Above(f, last, home) ensures false {
      OneAtEachDepth(f, k, last, home);
    }
  }

  /** A folder is properly above another one exactly when one of its subfolders is above it. */
  lemma SubfolderAbove(t: Tree, n: string, home: string)
    requires Linked(t) && n in t.forest.nodes && home in t.forest.nodes
    ensures AnyAbove(t.forest, t.subfolders[n], home) <==> Above(t.forest, n, home) && n != home
  {
    assert IsChildList(t.forest, n, t.subfolders[n]);
    forall c | c in t.subfolders[n] && Above(t.forest, c, home) ensures Above(t.forest, n, home) && n != home {
      assert LinkOk(t.forest, c);
      ParentIsAbove(t.forest, n, c, home);
      AboveDepth(t.forest, c, home);
    }
    if Above(t.forest, n, home) && n != home {
      var c := NextBelow(t.forest, n, home);
      assert c in t.subfolders[n];
    }
  }

  lemma {:induction false} WalkAllCounts(
    t: Tree, drawn: set<string>, keys: seq<string>, depth: nat, f: SearchFile, home: string)
    requires Linked(t) && NoDuplicates(keys) && OnlyUnder(t, f, home)
    requires DrawsAbove(t, drawn, home)
    requires forall k | k in keys :: SitsAt(t, k, depth)
    ensures WalkAll(t, drawn, keys, depth)[f] ==
            if AnyAbove(t.forest, keys, home) then multiset(t.files[home])[f] else 0
    decreases MAX_FOLDER_DEPTH - depth, |keys|
  {
    if keys != [] {
      var before, last := keys[..|keys| - 1], keys[|keys| - 1];
      OneAbove(t.forest, keys, home, depth);
      WalkAllCounts(t, drawn, before, depth, f, home);
      WalkCounts(t, drawn, last, f, home);
      assert last in keys;
      assert WalkAll(t, drawn, keys, depth) ==
             WalkAll(t, drawn, before, depth) + (if last in drawn then Walk(t, drawn, last) else multiset{});
    }
  }

  lemma {:induction false} WalkCounts(t: Tree, drawn: set<string>, n: string, f: SearchFile, home: string)
    requires Linked(t) && n in t.forest.nodes && OnlyUnder(t, f, home) && DrawsAbove(t, drawn, home)
    ensures Walk(t, drawn, n)[f] == if Above(t.forest, n, home) then multiset(t.files[home])[f] else 0
    decreases MAX_FOLDER_DEPTH - t.forest.nodes[n].depth, 0
  {
    ChildDepths(t, n);
    assert IsChildList(t.forest, n, t.subfolders[n]);
    WalkAllCounts(t, drawn, t.subfolders[n], t.forest.nodes[n].depth + 1, f, home);
    SubfolderAbove(t, n, home);
  }

  lemma {:induction false} FiledCounts(results: seq<SearchFile>, key: string, f: SearchFile)
    ensures multiset(FiledUnder(results, key))[f] ==
            if Wanted(f) && Normalized(f.directory) == key then multiset(results)[f] else 0
    ensures multiset(WantedOf(results))[f] == if Wanted(f) then multiset(results)[f] else 0
    decreases |results|
  {
    if results != [] {
      var before := results[..|results| - 1];
      FiledCounts(before, key, f);
      assert results == before + [results[|results| - 1]];
    }
  }

  ghost predicate AllFiled(t: Tree, results: seq<SearchFile>) {
    Linked(t) && Filed(t, results)
  }

  lemma PlacedAtHome(t: Tree, results: seq<SearchFile>, f: SearchFile)
    requires Filed(t, results)
    ensures f in results && Placed(f) ==> Normalized(f.directory) in t.files
  {
    if f in results && Placed(f) {
      assert f in t.fileParents;
      assert t.fileParents[f] == Normalized(f.directory) && t.fileParents[f] in t.forest.nodes;
    }
  }

  lemma TopCounts(t: Tree, drawn: set<string>, results: seq<SearchFile>, f: SearchFile)
    requires AllFiled(t, results) && forall home | home in t.forest.nodes :: DrawsAbove(t, drawn, home)
    ensures (WalkAll(t, drawn, t.forest.roots, 0) + multiset(t.loose))[f] == multiset(WantedOf(results))[f]
  {
    RootsSitAtTop(t);
    var home := Normalized(f.directory);
    PlacedAtHome(t, results, f);
    FiledCounts(results, "", f);
    forall key | key in t.files && key != home ensures f !in t.files[key] {
      FiledCounts(results, key, f);
    }
    if home in t.files {
      FiledCounts(results, home, f);
      WalkAllCounts(t, drawn, t.forest.roots, 0, f, home);
      var r := RootAbove(t.forest, home);
    } else {
      NowhereCounts(t, drawn, f);
    }
  }

  lemma NowhereCounts(t: Tree, drawn: set<string>, f: SearchFile)
    requires Linked(t) && forall key | key in t.files :: f !in t.files[key]
    requires forall home | home in t.forest.nodes :: DrawsAbove(t, drawn, home)
    ensures WalkAll(t, drawn, t.forest.roots, 0)[f] == 0
  {
    RootsSitAtTop(t);
    if t.forest.roots != [] {
      var k := t.forest.roots[0];
      assert k in t.files && OnlyUnder(t, f, k);
      WalkAllCounts(t, drawn, t.forest.roots, 0, f, k);
    }
  }

  /** Opening every row from the invisible root down meets each result that stands on its own and is shown exactly as
      often as it was in the results, and nothing else; rows are only ever folders with content and such results. */
  lemma WalkReachesEverythingOnce(t: Tree, results: seq<SearchFile>)
    requires AllFiled(t, results)
    ensures Visit(t, Drawn(t), ChildrenOf(t, Drawn(t), Top), 0) == multiset(WantedOf(results))
    ensures forall f :: Visit(t, Drawn(t), ChildrenOf(t, Drawn(t), Top), 0)[f] ==
                        if f.parent == None && f.shown then multiset(results)[f] else 0
  {
    var drawn := Drawn(t);
    RootsSitAtTop(t);
    VisitIsWalk(t, drawn, t.forest.roots, 0);
    VisitFiles(t, drawn, t.loose, 0);
    VisitJoins(t, drawn, FolderItems(drawn, t.forest.roots), FileItems(t.loose), 0);
    forall home | home in t.forest.nodes ensures DrawsAbove(t, drawn, home) {
      DrawnDrawsAbove(t, home);
    }
    forall f: SearchFile
      ensures Visit(t, drawn, ChildrenOf(t, drawn, Top), 0)[f] == multiset(WantedOf(results))[f]
      ensures multiset(WantedOf(results))[f] == if f.parent == None && f.shown then multiset(results)[f] else 0
    {
      TopCounts(t, drawn, results, f);
      FiledCounts(results, "", f);
    }
  }
}
