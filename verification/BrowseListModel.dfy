/** `CBrowseListModel` of src/BrowseListModel.cpp: the cached folder tree behind a browse tab. A node is known by
    its key instead of its address; what wx asks of it comes in as items. */
module BrowseListModel {
  import opened Common
  import opened FolderForest
  import opened BrowseTree

  // ----- Rows and parents agree -----

  /** What can have a row, or is the invisible root. */
  ghost predicate Known(t: Tree, item: Item) {
    item.Folder? ==> item.key in t.forest.nodes
  }

  /** The results each result groups, each of them pointing back to it. */
  type Groups = map<SearchFile, seq<SearchFile>>

  ghost predicate PointBack(groups: Groups) {
    forall g, f | g in groups && f in groups[g] :: f.parent == Some(g)
  }

  function GroupedUnder(groups: Groups, f: SearchFile): seq<SearchFile> {
    if f in groups then groups[f] else []
  }

  function Passing(files: seq<SearchFile>): seq<SearchFile> {
    if files == [] then []
    else
      var before, f := Passing(files[..|files| - 1]), files[|files| - 1];
      if f.passes then before + [f] else before
  }

  lemma {:induction false} PassingMembers(files: seq<SearchFile>, f: SearchFile)
    ensures f in Passing(files) <==> f in files && f.passes
    decreases |files|
  {
    if files != [] {
      PassingMembers(files[..|files| - 1], f);
    }
  }

  /** The rows under any item: a result under a folder still groups its own alternative sources. */
  ghost function RowsUnder(t: Tree, groups: Groups, item: Item): seq<Item>
    requires Linked(t) && Known(t, item)
  {
    if item.File? then FileItems(Passing(GroupedUnder(groups, item.file))) else ChildrenOf(t, Drawn(t), item)
  }

  /** A result that is shown on its own, in a directory at or below this folder. */
  ghost predicate LiesBelow(t: Tree, f: SearchFile, key: string)
    requires Linked(t)
  {
    var home := Normalized(f.directory);
    f.parent == None && f.shown && home in t.forest.nodes && Above(t.forest, key, home)
  }

  /** What has a row: folders with such a result at any depth, the results that are shown on their own, and those
      grouped under another one that pass the filter. */
  ghost predicate HasRow(t: Tree, results: seq<SearchFile>, groups: Groups, item: Item)
    requires Linked(t)
  {
    match item
    case Top => false
    case Folder(key) => key in t.forest.nodes && exists f :: f in results && LiesBelow(t, f, key)
    case File(f) =>
      if f.parent == None then f in results && f.shown else f in GroupedUnder(groups, f.parent.value) && f.passes
  }

  lemma {:induction false} FiledMembers(results: seq<SearchFile>, key: string, f: SearchFile)
    ensures f in FiledUnder(results, key) <==> f in results && Wanted(f) && Normalized(f.directory) == key
    decreases |results|
  {
    if results != [] {
      FiledMembers(results[..|results| - 1], key, f);
    }
  }

  lemma FileItemsMembers(files: seq<SearchFile>, x: Item)
    ensures x in FileItems(files) <==> x.File? && x.file in files
  {
    if x.File? && x.file in files {
      var i :| 0 <= i < |files| && files[i] == x.file;
      assert FileItems(files)[i] == x;
    }
  }

  lemma DrawnIs(t: Tree, results: seq<SearchFile>, key: string)
    requires AllFiled(t, results) && key in t.forest.nodes
    ensures key in Drawn(t) <==> exists f :: f in results && LiesBelow(t, f, key)
  {
    if key in Drawn(t) {
      var home := ContentLiesBelow(t, key);
      var f := t.files[home][0];
      FiledMembers(results, home, f);
      assert f in results && LiesBelow(t, f, key);
    }
    forall f | f in results && LiesBelow(t, f, key) ensures key in Drawn(t) {
      var home := Normalized(f.directory);
      FiledMembers(results, home, f);
      assert f in t.files[home] && HasContent(t, home);
      ContentRises(t, key, home);
    }
  }

  /** The parent of a row is the one item under which that row is drawn. */
  lemma ParentsAndChildrenAgree(t: Tree, results: seq<SearchFile>, groups: Groups, p: Item, x: Item)
    requires AllFiled(t, results) && PointBack(groups) && Known(t, p) && Known(t, x)
    ensures x in RowsUnder(t, groups, p) <==> HasRow(t, results, groups, x) && ParentOf(t, x) == p
  {
    if p.File? {
      FileItemsMembers(Passing(GroupedUnder(groups, p.file)), x);
      if x.File? {
        PassingMembers(GroupedUnder(groups, p.file), x.file);
      }
    } else {
      FolderRowsAgree(t, results, groups, p, x);
    }
  }

  lemma FolderRowsAgree(t: Tree, results: seq<SearchFile>, groups: Groups, p: Item, x: Item)
    requires AllFiled(t, results) && Known(t, p) && Known(t, x) && !p.File?
    ensures x in ChildrenOf(t, Drawn(t), p) <==> HasRow(t, results, groups, x) && ParentOf(t, x) == p
  {
    var folders := if p.Top? then t.forest.roots else t.subfolders[p.key];
    var files := if p.Top? then t.loose else t.files[p.key];
    FolderItemsMembers(Drawn(t), folders, x);
    FileItemsMembers(files, x);
    match x
    case Top =>
    case Folder(key) =>
      DrawnIs(t, results, key);
      assert LinkOk(t.forest, key);
      assert p.Folder? ==> IsChildList(t.forest, p.key, t.subfolders[p.key]);
    case File(f) =>
      FiledMembers(results, if p.Top? then "" else p.key, f);
  }

  // ----- Filing one more result -----

  ghost predicate KeysCanonical(f: Forest) {
    forall key | key in f.nodes :: Canonical(key)
  }

  /** Only keys ever get a node. */
  lemma {:induction false} EnsuredCanonical(f: Forest, path: string, level: nat)
    requires KeysCanonical(f) && Canonical(path)
    ensures KeysCanonical(Ensured(f, path, level))
    decreases |path|
  {
    if path !in f.nodes && LastSeparator(path) > 0 && level < MAX_FOLDER_DEPTH {
      CanonicalParent(path);
      EnsuredCanonical(f, path[..LastSeparator(path)], level + 1);
    }
  }

  lemma {:induction false} AddedAreShort(f: Forest, path: string, level: nat)
    ensures forall key | key in Ensured(f, path, level).nodes && key !in f.nodes :: |key| <= |path|
    ensures f.nodes.Keys <= Ensured(f, path, level).nodes.Keys
    decreases |path|
  {
    if path !in f.nodes && LastSeparator(path) > 0 && level < MAX_FOLDER_DEPTH {
      AddedAreShort(f, path[..LastSeparator(path)], level + 1);
    }
  }

  /** What is left to do once the parent path has its node. */
  lemma EnsuredBelow(f: Forest, path: string, level: nat)
    requires path !in f.nodes && LastSeparator(path) > 0 && level < MAX_FOLDER_DEPTH
    ensures var slash := LastSeparator(path);
            var g := Ensured(f, path[..slash], level + 1);
            && path !in g.nodes && f.nodes.Keys <= g.nodes.Keys
            && Ensured(f, path, level) ==
               if g.nodes[path[..slash]].depth + 1 < MAX_FOLDER_DEPTH
               then WithNode(g, path, path[slash + 1..], Some(path[..slash])) else WithNode(g, path, path, None)
  {
    AddedAreShort(f, path[..LastSeparator(path)], level + 1);
  }

  /** Filing so far: nothing is linked yet. */
  ghost predicate FiledSoFar(t: Tree, results: seq<SearchFile>) {
    ForestOk(t.forest) && KeysCanonical(t.forest) && Filed(t, results)
  }

  /** A fresh node starts empty; the others keep what they had. */
  ghost predicate GrownTo(files: map<string, seq<SearchFile>>, nodes: set<string>,
                                grown: map<string, seq<SearchFile>>)
  {
    && grown.Keys == nodes
    && forall key | key in nodes :: grown[key] == if key in files then files[key] else []
  }

  lemma FiledUnderSnoc(results: seq<SearchFile>, f: SearchFile, key: string)
    ensures FiledUnder(results + [f], key) ==
            if Wanted(f) && Normalized(f.directory) == key then FiledUnder(results, key) + [f]
            else FiledUnder(results, key)
  {}

  lemma GrownFurther(files: map<string, seq<SearchFile>>, once: map<string, seq<SearchFile>>,
                       twice: map<string, seq<SearchFile>>)
    requires files.Keys <= once.Keys <= twice.Keys
    requires GrownTo(files, once.Keys, once) && GrownTo(once, twice.Keys, twice)
    ensures GrownTo(files, twice.Keys, twice)
  {
  }

  function WithNode(f: Forest, path: string, name: string, parent: Option<string>): Forest
    requires parent.Some? ==> parent.value in f.nodes
  {
    match parent
    case None => WithRoot(f, path, name)
    case Some(p) => WithChild(f, path, name, p)
  }

  /** A directory no wanted result named yet has nothing filed under it. */
  lemma NothingFiled(t: Tree, results: seq<SearchFile>, key: string)
    requires ParentsRight(t, results) && key !in t.forest.nodes && key != ""
    ensures FiledUnder(results, key) == []
  {
    var filed := FiledUnder(results, key);
    if filed != [] {
      var f := filed[0];
      assert f in t.fileParents ==> t.fileParents[f] == Normalized(f.directory) && t.fileParents[f] in t.forest.nodes;
      FiledMembers(results, key, f);
    }
  }

  ghost function FiledOne(t: Tree, forest: Forest, grown: map<string, seq<SearchFile>>, f: SearchFile): Tree
    requires Normalized(f.directory) in grown
  {
    var key := Normalized(f.directory);
    t.(forest := forest, files := grown[key := grown[key] + [f]], fileParents := t.fileParents[f := key])
  }

  lemma ListsInFolder(t: Tree, results: seq<SearchFile>, f: SearchFile, forest: Forest,
                        grown: map<string, seq<SearchFile>>)
    requires Filed(t, results) && Placed(f) && Normalized(f.directory) in forest.nodes && KeysCanonical(forest)
    requires t.forest.nodes.Keys <= forest.nodes.Keys && GrownTo(t.files, forest.nodes.Keys, grown)
    ensures ListsRight(FiledOne(t, forest, grown, f), results + [f])
  {
    var after := FiledOne(t, forest, grown, f);
    forall key | key in after.files ensures after.files[key] == FiledUnder(results + [f], key) {
      FiledUnderSnoc(results, f, key);
      if key !in t.files {
        NothingFiled(t, results, key);
      }
    }
    FiledUnderSnoc(results, f, "");
  }

  lemma ParentsInFolder(t: Tree, results: seq<SearchFile>, f: SearchFile, forest: Forest,
                          grown: map<string, seq<SearchFile>>)
    requires ParentsRight(t, results) && Placed(f) && Normalized(f.directory) in forest.nodes
    requires t.forest.nodes.Keys <= forest.nodes.Keys && GrownTo(t.files, forest.nodes.Keys, grown)
    ensures ParentsRight(FiledOne(t, forest, grown, f), results + [f])
  {}

  lemma FiledInFolder(t: Tree, results: seq<SearchFile>, f: SearchFile, forest: Forest,
                        grown: map<string, seq<SearchFile>>)
    requires FiledSoFar(t, results) && Placed(f)
    requires forest == Ensured(t.forest, Normalized(f.directory), 0) && GrownTo(t.files, forest.nodes.Keys, grown)
    ensures FiledSoFar(FiledOne(t, forest, grown, f), results + [f])
    ensures Extends(t.forest, forest, Normalized(f.directory))
  {
    var key := Normalized(f.directory);
    NormalizedIsCanonical(f.directory);
    EnsuredOk(t.forest, key, 0);
    EnsuredCanonical(t.forest, key, 0);
    assert t.forest.nodes.Keys <= forest.nodes.Keys;
    ListsInFolder(t, results, f, forest, grown);
    ParentsInFolder(t, results, f, forest, grown);
  }

  lemma FiledNowhere(t: Tree, results: seq<SearchFile>, f: SearchFile)
    requires Filed(t, results) && !Placed(f)
    ensures Filed(if Wanted(f) then t.(loose := t.loose + [f]) else t, results + [f])
  {
    var after := if Wanted(f) then t.(loose := t.loose + [f]) else t;
    FiledUnderSnoc(results, f, "");
    assert ListsRight(after, results + [f]) by {
      forall key | key in after.files ensures after.files[key] == FiledUnder(results + [f], key) {
        FiledUnderSnoc(results, f, key);
      }
    }
    SameParents(t, after, results, f);
  }

  lemma SameParents(t: Tree, after: Tree, results: seq<SearchFile>, f: SearchFile)
    requires ParentsRight(t, results) && !Placed(f) && after.forest == t.forest && after.fileParents == t.fileParents
    ensures ParentsRight(after, results + [f])
  {}

  lemma {:induction false} NothingDrawn(keys: seq<string>)
    ensures FolderItems({}, keys) == []
    decreases |keys|
  {
    if keys != [] {
      NothingDrawn(keys[..|keys| - 1]);
    }
  }

  /** The list under `key` once all nodes but those in `todo` are linked. */
  ghost predicate Relinked(f: Forest, key: string, list: seq<string>, todo: set<string>) {
    && NoDuplicates(list)
    && forall c {:trigger c in list} :: c in list <==> c in f.nodes && c !in todo && f.nodes[c].parent == Some(key)
  }

  ghost predicate AllRelinked(f: Forest, subfolders: map<string, seq<string>>, todo: set<string>) {
    forall key {:trigger subfolders[key]} | key in subfolders :: Relinked(f, key, subfolders[key], todo)
  }

  function WithLink(f: Forest, subfolders: map<string, seq<string>>, c: string): map<string, seq<string>>
    requires c in f.nodes && (f.nodes[c].parent.Some? ==> f.nodes[c].parent.value in subfolders)
  {
    match f.nodes[c].parent
    case None => subfolders
    case Some(p) => subfolders[p := subfolders[p] + [c]]
  }

  lemma RelinkedStep(f: Forest, subfolders: map<string, seq<string>>, todo: set<string>, c: string)
    requires AllRelinked(f, subfolders, todo) && c in todo && c in f.nodes
    requires f.nodes[c].parent.Some? ==> f.nodes[c].parent.value in subfolders
    ensures AllRelinked(f, WithLink(f, subfolders, c), todo - {c})
  {
    var after := WithLink(f, subfolders, c);
    forall key | key in after ensures Relinked(f, key, after[key], todo - {c}) {
      assert Relinked(f, key, subfolders[key], todo);
      assert c !in subfolders[key];
    }
  }

  /** Filing does not look at the links. */
  lemma FilingIgnoresLinks(t: Tree, after: Tree, results: seq<SearchFile>)
    requires FiledSoFar(t, results) && after == t.(subfolders := after.subfolders)
    ensures FiledSoFar(after, results)
  {
    assert ListsRight(after, results) by {
      forall key | key in after.files ensures after.files[key] == FiledUnder(results, key) {
        assert t.files[key] == FiledUnder(results, key);
      }
    }
    assert ParentsRight(after, results);
  }

  // ----- The model -----

  class BrowseListModel {
    var forest: Forest
    var subfolders: map<string, seq<string>>
    var files: map<string, seq<SearchFile>>
    var looseFiles: seq<SearchFile>
    var fileParents: map<SearchFile, string>
    var foldersValid: bool
    var foldersGeneration: nat
    var foldersSearchId: nat
    /** The results the grouping was last built from. */
    ghost var builtFrom: seq<SearchFile>

    ghost function Shown(): Tree
      reads this
    {
      Tree(forest, subfolders, files, looseFiles, fileParents)
    }

    ghost predicate Valid()
      reads this
    {
      && ForestOk(forest) && KeysCanonical(forest)
      && forest.nodes.Keys == files.Keys == subfolders.Keys
      && (foldersValid ==> Grouped(builtFrom))
    }

    /** With no search there is nothing to file, and nothing is linked either. */
    ghost predicate Grouped(results: seq<SearchFile>)
      reads this
    {
      if foldersSearchId != 0 then AllFiled(Shown(), results)
      else looseFiles == [] && fileParents == map[] &&
           forall key {:trigger files[key]} {:trigger subfolders[key]} | key in forest.nodes ::
             key in files && files[key] == [] && key in subfolders && subfolders[key] == []
    }

    /** The owner bumps the generation whenever the results it would show change. */
    ghost predicate Current(generation: nat, searchId: nat, results: seq<SearchFile>)
      reads this
    {
      foldersValid && foldersGeneration == generation && foldersSearchId == searchId ==> builtFrom == results
    }

    /** Nodes outlive every rebuild with their name, parent and depth. */
    twostate predicate OnlyGrew()
      reads this
    {
      && old(forest).roots <= forest.roots
      && forall key | key in old(forest).nodes :: key in forest.nodes && forest.nodes[key] == old(forest).nodes[key]
    }

    constructor ()
      ensures Valid() && !foldersValid && forest.nodes == map[]
    {
      forest := Forest(map[], []);
      subfolders, files, looseFiles, fileParents := map[], map[], [], map[];
      foldersValid, foldersGeneration, foldersSearchId := false, 0, 0;
      builtFrom := [];
    }

    /** At most `MAX_FOLDER_DEPTH + 1` frames deep, however long the string. */
    method EnsureFolder(path: string, level: nat)
      requires level <= MAX_FOLDER_DEPTH && forest.nodes.Keys == files.Keys && Unlinked()
      modifies `forest, `subfolders, `files
      ensures forest == Ensured(old(forest), path, level)
      ensures GrownTo(old(files), forest.nodes.Keys, files) && Unlinked()
      decreases MAX_FOLDER_DEPTH - level, 1
    {
      if path in forest.nodes {
        return;
      }
      var parent, name := EnsureParent(path, level);
      ghost var before := files;
      AddNode(path, name, parent);
      GrownFurther(old(files), before, files);
    }

    /** The node a new folder hangs under, if both bounds allow one, and the name it gets. */
    method EnsureParent(path: string, level: nat) returns (parent: Option<string>, name: string)
      requires level <= MAX_FOLDER_DEPTH && path !in forest.nodes
      requires forest.nodes.Keys == files.Keys && Unlinked()
      modifies `forest, `subfolders, `files
      ensures path !in forest.nodes && old(forest).nodes.Keys <= forest.nodes.Keys
      ensures parent.Some? ==> parent.value in forest.nodes
      ensures WithNode(forest, path, name, parent) == Ensured(old(forest), path, level)
      ensures GrownTo(old(files), forest.nodes.Keys, files) && Unlinked()
      decreases MAX_FOLDER_DEPTH - level, 0
    {
      parent, name := None, path;
      var slash := LastSeparator(path);
      if slash == -1 || level >= MAX_FOLDER_DEPTH {
        return;
      }
      var parentPath := path[..slash];
      if parentPath == "" {
        return None, path[slash + 1..];
      }
      EnsuredBelow(forest, path, level);
      EnsureFolder(parentPath, level + 1);
      if forest.nodes[parentPath].depth + 1 < MAX_FOLDER_DEPTH {
        return Some(parentPath), path[slash + 1..];
      }
    }

    method AddNode(path: string, name: string, parent: Option<string>)
      requires path !in forest.nodes && (parent.Some? ==> parent.value in forest.nodes)
      requires forest.nodes.Keys == files.Keys && Unlinked()
      modifies `forest, `subfolders, `files
      ensures forest == WithNode(old(forest), path, name, parent)
      ensures GrownTo(old(files), forest.nodes.Keys, files) && Unlinked()
    {
      forest := WithNode(forest, path, name, parent);
      files, subfolders := files[path := []], subfolders[path := []];
    }

    /** Once per change: files every result under its own directory again, reusing the nodes there are. */
    method RebuildFolders(generation: nat, searchId: nat, results: seq<SearchFile>)
      requires Valid() && Current(generation, searchId, results)
      modifies this
      ensures Valid() && foldersValid && foldersGeneration == generation && foldersSearchId == searchId
      ensures Grouped(results) && OnlyGrew()
      ensures old(foldersValid && foldersGeneration == generation && foldersSearchId == searchId) ==>
                Shown() == old(Shown())
    {
      if foldersValid && foldersGeneration == generation && foldersSearchId == searchId {
        return;
      }
      foldersValid, foldersGeneration, foldersSearchId, builtFrom := true, generation, searchId, results;
      ClearLists();
      if searchId == 0 {
        return;
      }
      FileResults(results);
      ghost var t := Shown();
      Relink();
      FilingIgnoresLinks(t, Shown(), results);
    }

    method ClearLists()
      requires ForestOk(forest) && KeysCanonical(forest)
      modifies `subfolders, `files, `looseFiles, `fileParents
      ensures FiledSoFar(Shown(), []) && fileParents == map[]
      ensures files.Keys == subfolders.Keys == forest.nodes.Keys
      ensures forall key {:trigger subfolders[key]} {:trigger files[key]} | key in subfolders ::
                subfolders[key] == [] && files[key] == []
    {
      files := map key | key in forest.nodes :: [];
      subfolders := map key | key in forest.nodes :: [];
      looseFiles, fileParents := [], map[];
    }

    method FileResults(results: seq<SearchFile>)
      requires FiledSoFar(Shown(), []) && Unlinked()
      modifies `forest, `subfolders, `files, `looseFiles, `fileParents
      ensures FiledSoFar(Shown(), results) && Unlinked()
      ensures OnlyGrew()
    {
      for i := 0 to |results|
        invariant FiledSoFar(Shown(), results[..i]) && Unlinked()
        invariant OnlyGrew()
      {
        FileResult(results[..i], results[i]);
        assert results[..i + 1] == results[..i] + [results[i]];
      }
      assert results[..|results|] == results;
    }

    ghost predicate Unlinked()
      reads this
    {
      && subfolders.Keys == forest.nodes.Keys
      && forall key {:trigger subfolders[key]} | key in subfolders :: subfolders[key] == []
    }

    method FileResult(ghost before: seq<SearchFile>, file: SearchFile)
      requires FiledSoFar(Shown(), before) && Unlinked()
      modifies `forest, `subfolders, `files, `looseFiles, `fileParents
      ensures FiledSoFar(Shown(), before + [file]) && Unlinked()
      ensures OnlyGrew()
    {
      if file.parent != None || !file.shown {
        FiledNowhere(Shown(), before, file);
        return;
      }
      var directory := NormalizeDirectory(file.directory);
      if directory == "" {
        FiledNowhere(Shown(), before, file);
        looseFiles := looseFiles + [file];
        return;
      }
      FileInFolder(before, file, directory);
    }

    method FileInFolder(ghost before: seq<SearchFile>, file: SearchFile, directory: string)
      requires FiledSoFar(Shown(), before) && Unlinked() && Placed(file) && directory == Normalized(file.directory)
      modifies `forest, `subfolders, `files, `fileParents
      ensures FiledSoFar(Shown(), before + [file]) && Unlinked()
      ensures OnlyGrew()
    {
      NormalizedIsCanonical(file.directory);
      ghost var t := Shown();
      EnsureFolder(directory, 0);
      FiledInFolder(t, before, file, forest, files);
      ghost var grown := files;
      files := files[directory := files[directory] + [file]];
      fileParents := fileParents[file := directory];
      FilingIgnoresLinks(FiledOne(t, forest, grown, file), Shown(), before + [file]);
    }

    /** The second pass hangs every node with a parent back under it. */
    method Relink()
      requires ForestOk(forest) && forest.nodes.Keys == files.Keys && Unlinked()
      modifies `subfolders
      ensures Linked(Shown())
    {
      var todo := forest.nodes.Keys;
      while todo != {}
        invariant todo <= forest.nodes.Keys == subfolders.Keys && AllRelinked(forest, subfolders, todo)
        decreases |todo|
      {
        var key :| key in todo;
        assert LinkOk(forest, key);
        RelinkedStep(forest, subfolders, todo, key);
        subfolders := WithLink(forest, subfolders, key);
        todo := todo - {key};
      }
    }

    /** The folders worth a row at the moment. */
    ghost function DrawnNow(): set<string>
      requires Valid() && foldersValid
      reads this
    {
      if foldersSearchId == 0 then {} else Drawn(Shown())
    }

    method HasContent(key: string) returns (content: bool)
      requires Valid() && foldersValid && key in forest.nodes
      ensures content == (key in DrawnNow())
      decreases MAX_FOLDER_DEPTH - forest.nodes[key].depth
    {
      assert LinkOk(forest, key);
      if files[key] != [] {
        return true;
      }
      for i := 0 to |subfolders[key]|
        invariant forall j | 0 <= j < i :: subfolders[key][j] !in DrawnNow()
      {
        assert ChildOf(Shown(), subfolders[key][i], key);
        var below := HasContent(subfolders[key][i]);
        if below {
          return true;
        }
      }
      return false;
    }

    method DrawnOf(keys: seq<string>) returns (items: seq<Item>)
      requires Valid() && foldersValid && forall key | key in keys :: key in forest.nodes
      ensures items == FolderItems(DrawnNow(), keys)
    {
      items := [];
      for i := 0 to |keys|
        invariant items == FolderItems(DrawnNow(), keys[..i])
      {
        assert keys[..i + 1][..i] == keys[..i];
        var content := HasContent(keys[i]);
        if content {
          items := items + [Folder(keys[i])];
        }
      }
      assert keys[..|keys|] == keys;
    }

    /** The rows under an item, after regrouping if that is due; what a result groups needs none. */
    method GetChildren(item: Item, generation: nat, searchId: nat, results: seq<SearchFile>, groups: Groups)
      returns (children: seq<Item>)
      requires Valid() && Known(Shown(), item) && Current(generation, searchId, results)
      modifies this
      ensures Valid() && OnlyGrew() && (item.File? ==> Shown() == old(Shown()))
      ensures item.File? ==> children == FileItems(Passing(GroupedUnder(groups, item.file)))
      ensures !item.File? ==> foldersValid && foldersSearchId == searchId && Grouped(results)
      ensures !item.File? && searchId == 0 ==> children == []
      ensures !item.File? && searchId != 0 ==>
                Known(Shown(), item) && AllFiled(Shown(), results) && children == RowsUnder(Shown(), groups, item)
    {
      if item.File? {
        children := PassingOf(GroupedUnder(groups, item.file));
        return;
      }
      RebuildFolders(generation, searchId, results);
      var folders, own := forest.roots, looseFiles;
      if item.Folder? {
        folders, own := subfolders[item.key], files[item.key];
        assert searchId != 0 ==> IsChildList(forest, item.key, folders);
      }
      var drawn := DrawnOf(folders);
      NothingDrawn(folders);
      return drawn + FileItems(own);
    }

    method PassingOf(files: seq<SearchFile>) returns (items: seq<Item>)
      ensures items == FileItems(Passing(files))
    {
      items := [];
      for i := 0 to |files|
        invariant items == FileItems(Passing(files[..i]))
      {
        assert files[..i + 1][..i] == files[..i];
        if files[i].passes {
          items := items + [File(files[i])];
        }
      }
      assert files[..|files|] == files;
    }

    /** Read back from the last grouping; a result that is not filed anywhere sits under the invisible root. A
        result grouped under another one is not even looked up there. */
    method GetParent(item: Item, generation: nat, searchId: nat, results: seq<SearchFile>) returns (parent: Item)
      requires Valid() && Known(Shown(), item) && Current(generation, searchId, results)
      modifies this
      ensures Valid() && OnlyGrew() && Known(Shown(), item) && parent == ParentOf(Shown(), item)
      ensures item.File? && item.file.parent == None ==> foldersSearchId == searchId && Grouped(results)
      ensures (item.File? && item.file.parent == None) || Shown() == old(Shown())
    {
      match item {
        case Top => return Top;
        case Folder(key) =>
          var up := forest.nodes[key].parent;
          return if up == None then Top else Folder(up.value);
        case File(f) =>
          if f.parent != None {
            return File(f.parent.value);
          }
          RebuildFolders(generation, searchId, results);
          return if f in fileParents then Folder(fileParents[f]) else Top;
      }
    }
  }
}
