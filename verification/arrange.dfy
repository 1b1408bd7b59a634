/** The organiser itself: walking the source files, copying each supported
    one into its dated folder under a name that collides with nothing, and
    reporting each unsupported extension once. The destination tree is
    state that the copying changes in place. */
module Arrange {
  import opened Text
  import opened Classify
  import opened UniqueName
  import opened Dates
  import opened Report

  /** One destination folder: entry name, mapped to what that entry holds
      (for the copies this organiser makes, the path of the source file). */
  type Directory = map<string, string>

  /** The destination tree: each dated folder with its entries. */
  type Tree = map<DateDir, Directory>

  /** A file the walk yields: its full path, its name, and its modification date. */
  datatype SourceFile = SourceFile(path: string, name: string, modified: Date)

  predicate AllDated(files: seq<SourceFile>)
  {
    forall i :: 0 <= i < |files| ==> ValidDate(files[i].modified)
  }

  /** The entries of the folder `key`; a folder that does not exist yet has none. */
  function DirectoryAt(tree: Tree, key: DateDir): Directory
  {
    if key in tree then tree[key] else map[]
  }

  /** Nothing of `before` is lost or changed in `after`: every folder is still
      there, and every entry keeps its name and what it holds. */
  ghost predicate Preserves(before: Tree, after: Tree)
  {
    && before.Keys <= after.Keys
    && forall key, n :: key in before && n in before[key] ==> n in after[key] && after[key][n] == before[key][n]
  }

  lemma KeptEntry(before: Tree, after: Tree, key: DateDir, n: string)
    requires Preserves(before, after) && key in before && n in before[key]
    ensures key in after && n in after[key] && after[key][n] == before[key][n]
  {
  }

  /** An entry of `after` that `before` did not have. */
  ghost predicate NewEntry(before: Tree, after: Tree, key: DateDir, n: string)
  {
    key in after && n in after[key] && !(key in before && n in before[key])
  }

  /** `create_directory_structure`: the folder exists afterwards; if it was
      already there nothing changes, otherwise it is added empty. */
  function WithDirectory(tree: Tree, key: DateDir): (t: Tree)
    ensures t.Keys == tree.Keys + {key}
    ensures forall k :: k in tree ==> t[k] == tree[k]
    ensures key !in tree ==> t[key] == map[]
  {
    if key in tree then tree else tree[key := map[]]
  }

  /** `copy_picture` on the tree: the file lands in its dated folder under
      the name `get_unique_filename` picks there. */
  function PlaceFile(tree: Tree, f: SourceFile): Tree
    requires ValidDate(f.modified)
  {
    var key := DirKey(f.modified);
    var t0 := WithDirectory(tree, key);
    var name := UniqueFilename(t0[key].Keys, f.name);
    t0[key := t0[key][name := f.path]]
  }

  /** Placing a file adds exactly one entry, under a name its dated folder did
      not have, holding the copy; no other folder changes and no existing
      entry is touched. */
  lemma PlaceFileAddsOneEntry(tree: Tree, f: SourceFile)
    requires ValidDate(f.modified)
    ensures var t := PlaceFile(tree, f);
      var key := DirKey(f.modified);
      var dir := DirectoryAt(tree, key);
      var name := UniqueFilename(dir.Keys, f.name);
      && t.Keys == tree.Keys + {key}
      && (forall k :: k in tree && k != key ==> t[k] == tree[k])
      && name !in dir
      && t[key] == dir[name := f.path]
      && |t[key]| == |dir| + 1
      && Preserves(tree, t)
  {
  }

  /** The tree after the walk has handled `files` in order: supported files
      are placed one after another, unsupported ones leave it as it is. */
  function Arranged(tree: Tree, files: seq<SourceFile>): Tree
    requires AllDated(files)
  {
    if files == [] then
      tree
    else
      var before := Arranged(tree, files[..|files| - 1]);
      var f := files[|files| - 1];
      if IsSupported(f.name) then PlaceFile(before, f) else before
  }

  /** Handling one more file: a supported file is placed, an unsupported one changes nothing. */
  lemma ArrangedSnoc(tree: Tree, files: seq<SourceFile>, f: SourceFile)
    requires AllDated(files) && ValidDate(f.modified)
    ensures AllDated(files + [f])
    ensures Arranged(tree, files + [f]) == if IsSupported(f.name) then PlaceFile(Arranged(tree, files), f) else Arranged(tree, files)
  {
    assert (files + [f])[..|files|] == files;
  }

  /** The walk never loses or changes an entry of the destination tree. */
  lemma {:induction false} ArrangedPreserves(tree: Tree, files: seq<SourceFile>)
    requires AllDated(files)
    ensures Preserves(tree, Arranged(tree, files))
  {
    if files != [] {
      var before := Arranged(tree, files[..|files| - 1]);
      ArrangedPreserves(tree, files[..|files| - 1]);
      var f := files[|files| - 1];
      if IsSupported(f.name) {
        PlaceFileAddsOneEntry(before, f);
      }
    }
  }

  /** What the walk observes of one file: whether it is copied, and the
      lower-cased `splitext` extension it would report. */
  function SeenOf(f: SourceFile): Seen
  {
    Seen(IsSupported(f.name), ReportedExtension(f.name))
  }

  function Observe(files: seq<SourceFile>): seq<Seen>
  {
    seq(|files|, i requires 0 <= i < |files| => SeenOf(files[i]))
  }

  /** The notices printed while the walk handles `files` in order. */
  function Reported(files: seq<SourceFile>): seq<string>
  {
    Notices(Observe(files))
  }

  /** Handling one more file: an unsupported file's extension is printed
      unless it was printed before; a supported file prints nothing. */
  lemma ReportedSnoc(files: seq<SourceFile>, f: SourceFile)
    ensures Reported(files + [f]) ==
      if !IsSupported(f.name) && ReportedExtension(f.name) !in Reported(files) then
        Reported(files) + [ReportedExtension(f.name)]
      else
        Reported(files)
  {
    assert Observe(files + [f]) == Observe(files) + [SeenOf(f)];
    NoticesSnoc(Observe(files), SeenOf(f));
  }

  /** The files of `files` that are supported (`supported`) or unsupported (`!supported`), in order. */
  function OfKind(files: seq<SourceFile>, supported: bool): seq<SourceFile>
  {
    if files == [] then
      []
    else
      var f := files[|files| - 1];
      OfKind(files[..|files| - 1], supported) + (if IsSupported(f.name) == supported then [f] else [])
  }

  /** A file is kept exactly when it is one of the walked files and of the kind asked for. */
  lemma {:induction false} OfKindMembers(files: seq<SourceFile>, supported: bool, f: SourceFile)
    ensures f in OfKind(files, supported) <==> f in files && IsSupported(f.name) == supported
  {
    if files != [] {
      var prefix := files[..|files| - 1];
      var last := files[|files| - 1];
      OfKindMembers(prefix, supported, f);
      assert files == prefix + [last];
    }
  }

  /** Keeping the files of one kind keeps them all dated. */
  lemma {:induction false} OfKindDated(files: seq<SourceFile>, supported: bool)
    requires AllDated(files)
    ensures AllDated(OfKind(files, supported))
  {
    if files != [] {
      var prefix := files[..|files| - 1];
      OfKindDated(prefix, supported);
      var kept := OfKind(prefix, supported);
      var f := files[|files| - 1];
      assert ValidDate(f.modified);
      assert forall i :: 0 <= i < |kept| ==> (kept + [f])[i] == kept[i];
    }
  }

  lemma OfKindSnoc(files: seq<SourceFile>, f: SourceFile, supported: bool)
    ensures OfKind(files + [f], supported) ==
      OfKind(files, supported) + (if IsSupported(f.name) == supported then [f] else [])
  {
    assert (files + [f])[..|files|] == files;
  }

  /** Supported files never affect the notices: dropping them all prints the same. */
  lemma {:induction false} ReportedIgnoresSupported(files: seq<SourceFile>)
    ensures Reported(OfKind(files, false)) == Reported(files)
  {
    if files != [] {
      var prefix := files[..|files| - 1];
      var f := files[|files| - 1];
      var kept := OfKind(prefix, false);
      assert files == prefix + [f];
      ReportedIgnoresSupported(prefix);
      OfKindSnoc(prefix, f, false);
      ReportedSnoc(prefix, f);
      if !IsSupported(f.name) {
        assert OfKind(files, false) == kept + [f];
        ReportedSnoc(kept, f);
      } else {
        assert OfKind(files, false) == kept;
      }
    }
  }

  /** Unsupported files never change the destination: dropping them all arranges the same tree. */
  lemma {:induction false} ArrangedIgnoresUnsupported(tree: Tree, files: seq<SourceFile>)
    requires AllDated(files)
    ensures AllDated(OfKind(files, true))
    ensures Arranged(tree, OfKind(files, true)) == Arranged(tree, files)
  {
    OfKindDated(files, true);
    if files != [] {
      var prefix := files[..|files| - 1];
      var f := files[|files| - 1];
      ArrangedIgnoresUnsupported(tree, prefix);
      var kept := OfKind(prefix, true);
      if IsSupported(f.name) {
        var k := kept + [f];
        assert k[..|kept|] == kept && k[|kept|] == f;
        assert OfKind(files, true) == k;
        OfKindDated(files, true);
        assert Arranged(tree, k) == PlaceFile(Arranged(tree, kept), f);
      } else {
        assert OfKind(files, true) == kept;
      }
    }
  }

  /** No extension is printed twice, and each one printed is that of some
      unsupported file. */
  lemma ReportedDistinctAndSound(files: seq<SourceFile>)
    ensures forall a, b :: 0 <= a < b < |Reported(files)| ==> Reported(files)[a] != Reported(files)[b]
    ensures forall e :: e in Reported(files) ==>
      exists i :: 0 <= i < |files| && !IsSupported(files[i].name) && ReportedExtension(files[i].name) == e
  {
    NoticesDistinct(Observe(files));
    forall e | e in Reported(files)
      ensures exists i :: 0 <= i < |files| && !IsSupported(files[i].name) && ReportedExtension(files[i].name) == e
    {
      NoticesSound(Observe(files), e);
      var i :| 0 <= i < |files| && !Observe(files)[i].copied && Observe(files)[i].extension == e;
      assert Observe(files)[i] == SeenOf(files[i]);
    }
  }

  /** Every unsupported file's extension is printed: the printed notices are
      exactly the extensions of the unsupported files. */
  lemma ReportedComplete(files: seq<SourceFile>, i: nat)
    requires i < |files| && !IsSupported(files[i].name)
    ensures ReportedExtension(files[i].name) in Reported(files)
  {
    assert Observe(files)[i] == SeenOf(files[i]);
    NoticesComplete(Observe(files), i);
  }

  /** An unsupported file that is the first with its extension. */
  ghost predicate FirstWithExtension(files: seq<SourceFile>, i: int, e: string)
    requires 0 <= i < |files|
  {
    && !IsSupported(files[i].name)
    && ReportedExtension(files[i].name) == e
    && forall j :: 0 <= j < i && !IsSupported(files[j].name) ==> ReportedExtension(files[j].name) != e
  }

  /** Notices come in order of first appearance: the k-th notice is printed
      while handling the first unsupported file with that extension, after
      exactly the k notices before it. */
  lemma ReportedInOrderOfFirstAppearance(files: seq<SourceFile>, k: nat)
    requires k < |Reported(files)|
    ensures exists i :: (0 <= i < |files| && FirstWithExtension(files, i, Reported(files)[k])
      && Reported(files[..i]) == Reported(files)[..k])
  {
    var seen := Observe(files);
    NoticesInOrder(seen, k);
    var i :| 0 <= i < |seen| && FirstSeen(seen, i, Notices(seen)[k]) && Notices(seen[..i]) == Notices(seen)[..k];
    assert Observe(files[..i]) == seen[..i];
    forall j | 0 <= j <= i ensures seen[j] == SeenOf(files[j]) {
    }
    assert FirstWithExtension(files, i, Reported(files)[k]);
  }

  /** The only entry placing a file adds is its copy, in its dated folder. */
  lemma PlaceFileAddsOnlyItsCopy(tree: Tree, f: SourceFile, key: DateDir, n: string)
    requires ValidDate(f.modified)
    requires NewEntry(tree, PlaceFile(tree, f), key, n)
    ensures key == DirKey(f.modified) && PlaceFile(tree, f)[key][n] == f.path
    ensures n == UniqueFilename(DirectoryAt(tree, key).Keys, f.name)
  {
    PlaceFileAddsOneEntry(tree, f);
    if key == DirKey(f.modified) {
      assert n !in DirectoryAt(tree, key);
    }
  }

  /** Handling one more file keeps every entry that was there. */
  lemma ArrangedStepPreserves(tree: Tree, files: seq<SourceFile>)
    requires AllDated(files) && files != []
    ensures Preserves(Arranged(tree, files[..|files| - 1]), Arranged(tree, files))
  {
    var f := files[|files| - 1];
    if IsSupported(f.name) {
      PlaceFileAddsOneEntry(Arranged(tree, files[..|files| - 1]), f);
    }
  }

  /** Handling one more file keeps everything that was there, and any entry it
      adds is the copy of that file, in its dated folder, and that file is supported. */
  lemma ArrangedLastStep(tree: Tree, files: seq<SourceFile>, key: DateDir, n: string)
    requires AllDated(files) && files != []
    ensures Preserves(Arranged(tree, files[..|files| - 1]), Arranged(tree, files))
    ensures var f := files[|files| - 1];
      NewEntry(Arranged(tree, files[..|files| - 1]), Arranged(tree, files), key, n) ==>
        IsSupported(f.name) && key == DirKey(f.modified) && Arranged(tree, files)[key][n] == f.path
  {
    var before := Arranged(tree, files[..|files| - 1]);
    var f := files[|files| - 1];
    if IsSupported(f.name) {
      PlaceFileAddsOneEntry(before, f);
      if NewEntry(before, PlaceFile(before, f), key, n) {
        PlaceFileAddsOnlyItsCopy(before, f, key, n);
      }
    }
  }

  /** `after` has an entry, absent from `tree`, in folder `key`, holding `content`. */
  ghost predicate HasNewCopy(tree: Tree, after: Tree, key: DateDir, content: string)
  {
    exists n :: NewEntry(tree, after, key, n) && after[key][n] == content
  }

  lemma NewCopyKept(tree: Tree, before: Tree, after: Tree, key: DateDir, content: string)
    requires HasNewCopy(tree, before, key, content) && Preserves(before, after)
    ensures HasNewCopy(tree, after, key, content)
  {
    var n :| NewEntry(tree, before, key, n) && before[key][n] == content;
    KeptEntry(before, after, key, n);
    assert NewEntry(tree, after, key, n);
  }

  /** A supported file gets a new entry in its dated folder holding its copy
      as soon as it is handled. */
  lemma PlaceFileCopiesAsNew(tree: Tree, before: Tree, f: SourceFile)
    requires ValidDate(f.modified) && Preserves(tree, before)
    ensures HasNewCopy(tree, PlaceFile(before, f), DirKey(f.modified), f.path)
  {
    var key := DirKey(f.modified);
    var dir := DirectoryAt(before, key);
    var name := UniqueFilename(dir.Keys, f.name);
    PlaceFileAddsOneEntry(before, f);
    assert name !in dir;
    assert NewEntry(tree, PlaceFile(before, f), key, name);
  }

  /** Every supported file gets a new entry in its dated folder holding its copy. */
  lemma {:induction false} ArrangedCopiesEverySupported(tree: Tree, files: seq<SourceFile>, i: nat)
    requires AllDated(files)
    requires i < |files| && IsSupported(files[i].name)
    ensures HasNewCopy(tree, Arranged(tree, files), DirKey(files[i].modified), files[i].path)
  {
    var m := |files| - 1;
    var prefix := files[..m];
    var before := Arranged(tree, prefix);
    if i < m {
      assert prefix[i] == files[i];
      ArrangedCopiesEverySupported(tree, prefix, i);
      ArrangedLastStep(tree, files, DirKey(files[i].modified), files[i].name);
      NewCopyKept(tree, before, Arranged(tree, files), DirKey(files[i].modified), files[i].path);
    } else {
      ArrangedPreserves(tree, prefix);
      PlaceFileCopiesAsNew(tree, before, files[i]);
    }
  }

  /** Every new entry is the copy of a supported file, in that file's dated
      folder: unsupported files are never copied. */
  lemma {:induction false} ArrangedAddsOnlyCopies(tree: Tree, files: seq<SourceFile>, key: DateDir, n: string)
    requires AllDated(files)
    requires NewEntry(tree, Arranged(tree, files), key, n)
    ensures exists i :: (0 <= i < |files| && IsSupported(files[i].name)
      && DirKey(files[i].modified) == key && Arranged(tree, files)[key][n] == files[i].path)
  {
    if files != [] {
      var m := |files| - 1;
      var prefix := files[..m];
      var before := Arranged(tree, prefix);
      var t := Arranged(tree, files);
      ArrangedLastStep(tree, files, key, n);
      if NewEntry(tree, before, key, n) {
        ArrangedAddsOnlyCopies(tree, prefix, key, n);
        var i :| 0 <= i < |prefix| && IsSupported(prefix[i].name)
          && DirKey(prefix[i].modified) == key && before[key][n] == prefix[i].path;
        assert files[i] == prefix[i];
        assert t[key][n] == before[key][n];
        assert IsSupported(files[i].name) && DirKey(files[i].modified) == key && t[key][n] == files[i].path;
      } else {
        assert NewEntry(before, t, key, n);
        assert IsSupported(files[m].name) && DirKey(files[m].modified) == key && t[key][n] == files[m].path;
      }
    }
  }

  /** No two files of the walk have the same path. */
  predicate DistinctPaths(files: seq<SourceFile>)
  {
    forall a, b :: 0 <= a < b < |files| ==> files[a].path != files[b].path
  }

  /** Entry `n` of folder `key` is new in `after` and holds `content`. */
  ghost predicate CopyOf(tree: Tree, after: Tree, key: DateDir, n: string, content: string)
  {
    NewEntry(tree, after, key, n) && after[key][n] == content
  }

  /** When the walked paths are distinct, two new entries never hold the same
      copy: each file is copied at most once. */
  lemma {:induction false} ArrangedCopiesAtMostOnce(tree: Tree, files: seq<SourceFile>, content: string,
      key1: DateDir, n1: string, key2: DateDir, n2: string)
    requires AllDated(files) && DistinctPaths(files)
    requires CopyOf(tree, Arranged(tree, files), key1, n1, content)
    requires CopyOf(tree, Arranged(tree, files), key2, n2, content)
    ensures key1 == key2 && n1 == n2
  {
    if files != [] {
      var prefix := files[..|files| - 1];
      var before := Arranged(tree, prefix);
      if content == files[|files| - 1].path {
        // only the last step can have made a copy of the last file
        if NewEntry(tree, before, key1, n1) {
          EarlierCopyIsNotLast(tree, files, key1, n1);
        }
        if NewEntry(tree, before, key2, n2) {
          EarlierCopyIsNotLast(tree, files, key2, n2);
        }
        LastStepAddsOneEntry(tree, files, key1, n1, key2, n2);
      } else {
        // the last step made no copy with other content
        ArrangedLastStep(tree, files, key1, n1);
        ArrangedLastStep(tree, files, key2, n2);
        ArrangedPreserves(tree, prefix);
        LastStepKeepsCopy(tree, files, content, key1, n1);
        LastStepKeepsCopy(tree, files, content, key2, n2);
        ArrangedCopiesAtMostOnce(tree, prefix, content, key1, n1, key2, n2);
      }
    }
  }

  /** An entry that was already a new copy before the last step holds the same content before it. */
  lemma LastStepKeepsCopy(tree: Tree, files: seq<SourceFile>, content: string, key: DateDir, n: string)
    requires AllDated(files) && files != []
    requires NewEntry(tree, Arranged(tree, files[..|files| - 1]), key, n)
    requires CopyOf(tree, Arranged(tree, files), key, n, content)
    ensures CopyOf(tree, Arranged(tree, files[..|files| - 1]), key, n, content)
  {
    var before := Arranged(tree, files[..|files| - 1]);
    ArrangedStepPreserves(tree, files);
    KeptEntry(before, Arranged(tree, files), key, n);
  }

  /** The last step adds at most one entry. */
  lemma LastStepAddsOneEntry(tree: Tree, files: seq<SourceFile>, key1: DateDir, n1: string, key2: DateDir, n2: string)
    requires AllDated(files) && files != []
    requires NewEntry(tree, Arranged(tree, files), key1, n1) && !NewEntry(tree, Arranged(tree, files[..|files| - 1]), key1, n1)
    requires NewEntry(tree, Arranged(tree, files), key2, n2) && !NewEntry(tree, Arranged(tree, files[..|files| - 1]), key2, n2)
    ensures key1 == key2 && n1 == n2
  {
    var before := Arranged(tree, files[..|files| - 1]);
    var f := files[|files| - 1];
    ArrangedPreserves(tree, files[..|files| - 1]);
    assert NewEntry(before, Arranged(tree, files), key1, n1);
    assert NewEntry(before, Arranged(tree, files), key2, n2);
    ArrangedLastStep(tree, files, key1, n1);
    PlaceFileAddsOnlyItsCopy(before, f, key1, n1);
    PlaceFileAddsOnlyItsCopy(before, f, key2, n2);
  }

  /** A copy made before the last step never holds the last file's path
      when the walked paths are distinct. */
  lemma EarlierCopyIsNotLast(tree: Tree, files: seq<SourceFile>, key: DateDir, n: string)
    requires AllDated(files) && DistinctPaths(files) && files != []
    requires NewEntry(tree, Arranged(tree, files[..|files| - 1]), key, n)
    ensures var t := Arranged(tree, files);
      key in t && n in t[key] && t[key][n] != files[|files| - 1].path
  {
    var m := |files| - 1;
    var prefix := files[..m];
    var before := Arranged(tree, prefix);
    ArrangedStepPreserves(tree, files);
    KeptEntry(before, Arranged(tree, files), key, n);
    ArrangedAddsOnlyCopies(tree, prefix, key, n);
    var j :| 0 <= j < |prefix| && before[key][n] == prefix[j].path;
    assert files[j] == prefix[j];
    assert files[j].path != files[m].path;
  }

  /** When the walked paths are distinct, every supported file ends up under
      exactly one new entry, and that entry is in its dated folder. */
  lemma ArrangedCopiesEachSupportedOnce(tree: Tree, files: seq<SourceFile>, i: nat)
    requires AllDated(files) && DistinctPaths(files)
    requires i < |files| && IsSupported(files[i].name)
    ensures exists n :: CopyOf(tree, Arranged(tree, files), DirKey(files[i].modified), n, files[i].path)
    ensures forall key, n :: CopyOf(tree, Arranged(tree, files), key, n, files[i].path) ==>
      key == DirKey(files[i].modified)
    ensures forall key1, n1, key2, n2 ::
      (CopyOf(tree, Arranged(tree, files), key1, n1, files[i].path) &&
       CopyOf(tree, Arranged(tree, files), key2, n2, files[i].path)) ==> key1 == key2 && n1 == n2
  {
    var t := Arranged(tree, files);
    var key0 := DirKey(files[i].modified);
    ArrangedCopiesEverySupported(tree, files, i);
    var n0 :| NewEntry(tree, t, key0, n0) && t[key0][n0] == files[i].path;
    assert CopyOf(tree, t, key0, n0, files[i].path);
    forall key, n | CopyOf(tree, t, key, n, files[i].path)
      ensures key == key0
    {
      ArrangedCopiesAtMostOnce(tree, files, files[i].path, key, n, key0, n0);
    }
    forall key1, n1, key2, n2 | CopyOf(tree, t, key1, n1, files[i].path) && CopyOf(tree, t, key2, n2, files[i].path)
      ensures key1 == key2 && n1 == n2
    {
      ArrangedCopiesAtMostOnce(tree, files, files[i].path, key1, n1, key2, n2);
    }
  }

  /** The destination tree, changed in place as the organiser copies files into it. */
  class Destination {
    var tree: Tree

    constructor (initial: Tree)
      ensures tree == initial
    {
      tree := initial;
    }

    /** `create_directory_structure`: create the dated folder unless it exists. */
    method CreateDirectoryStructure(key: DateDir)
      modifies this
      ensures tree == WithDirectory(old(tree), key)
    {
      if key !in tree {
        tree := tree[key := map[]];
      }
    }

    /** `copy_picture`: ensure the dated folder, resolve a free name there and
      copy the file in under it. */
    method CopyPicture(f: SourceFile) returns (placed: string)
      requires ValidDate(f.modified)
      modifies this
      ensures placed == UniqueFilename(DirectoryAt(old(tree), DirKey(f.modified)).Keys, f.name)
      ensures placed !in DirectoryAt(old(tree), DirKey(f.modified))
      ensures tree == PlaceFile(old(tree), f)
    {
      var key := DirKey(f.modified);
      CreateDirectoryStructure(key);
      placed := GetUniqueFilename(tree[key].Keys, f.name);
      tree := tree[key := tree[key][placed := f.path]];
    }

    /** One iteration of the walk: copy a supported file, or print the
      extension of an unsupported one unless it is in `printedExtensions`. */
    method HandleFile(f: SourceFile, ghost start: Tree, ghost done: seq<SourceFile>,
        printed: seq<string>, printedExtensions: set<string>)
      returns (printed': seq<string>, printedExtensions': set<string>)
      requires AllDated(done) && ValidDate(f.modified)
      requires tree == Arranged(start, done) && printed == Reported(done)
      requires forall e :: e in printedExtensions <==> e in printed
      modifies this
      ensures AllDated(done + [f])
      ensures tree == Arranged(start, done + [f]) && printed' == Reported(done + [f])
      ensures forall e :: e in printedExtensions' <==> e in printed'
    {
      ArrangedSnoc(start, done, f);
      ReportedSnoc(done, f);
      printed', printedExtensions' := printed, printedExtensions;
      if IsSupported(f.name) {
        var _ := CopyPicture(f);
      } else {
        var extension := ReportedExtension(f.name);
        if extension !in printedExtensions {
          printed' := printed + [extension];
          printedExtensions' := printedExtensions + {extension};
        }
      }
    }

    /** `search_and_arrange_pictures_and_videos`: handle the walked files in
      order, copying the supported ones and printing each unsupported
      extension the first time it is met. Returns the printed extensions. */
    method SearchAndArrange(files: seq<SourceFile>) returns (printed: seq<string>)
      requires AllDated(files)
      modifies this
      ensures tree == Arranged(old(tree), files)
      ensures printed == Reported(files)
    {
      var printedExtensions: set<string> := {};
      printed := [];
      var i := 0;
      while i < |files|
        invariant 0 <= i <= |files|
        invariant tree == Arranged(old(tree), files[..i])
        invariant printed == Reported(files[..i])
        invariant forall e :: e in printedExtensions <==> e in printed
      {
        assert files[..i + 1] == files[..i] + [files[i]];
        printed, printedExtensions := HandleFile(files[i], old(tree), files[..i], printed, printedExtensions);
        i := i + 1;
      }
      assert files[..|files|] == files;
    }
  }
}
