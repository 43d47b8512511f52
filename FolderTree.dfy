/** get_folder_structure: the map from each visible directory below a root to
    the sorted names of the files directly in it. */
module FolderTree {
  import opened FileTree
  import opened Sorting

  /** Relative directory path ("." is []) to its sorted file names. */
  type FolderMap = map<Path, seq<string>>

  /** The dictionary the walk loop leaves behind after the given steps: each
      step writes its directory's sorted file list, a later write to the same
      key replacing an earlier one. */
  function StructureOf(steps: seq<WalkStep>): FolderMap
  {
    if steps == [] then map[]
    else
      var last := steps[|steps| - 1];
      StructureOf(steps[..|steps| - 1])[last.path := Sort(last.files)]
  }

  /** The folder structure of a root (None when it does not exist), walked
      with hidden directories pruned. */
  function FolderStructure(root: Option<Node>): FolderMap
  {
    StructureOf(OsWalk(root, true))
  }

  /** The walk loop of get_folder_structure. The pruning of `dirnames` that the
      loop body does in place is the `prune` argument of the walk it consumes. */
  method GetFolderStructure(root: Option<Node>) returns (structure: FolderMap)
    ensures structure == FolderStructure(root)
  {
    structure := map[];
    var steps := OsWalk(root, true);
    for i := 0 to |steps|
      invariant structure == StructureOf(steps[..i])
    {
      assert steps[..i + 1][..i] == steps[..i];
      structure := structure[steps[i].path := Sort(steps[i].files)];
    }
    assert steps[..|steps|] == steps;
  }

  lemma {:induction false} StructureOfKeys(steps: seq<WalkStep>, p: Path)
    ensures p in StructureOf(steps) <==> exists i :: 0 <= i < |steps| && steps[i].path == p
  {
    if steps != [] {
      var init, last := steps[..|steps| - 1], steps[|steps| - 1];
      StructureOfKeys(init, p);
      assert StructureOf(steps) == StructureOf(init)[last.path := Sort(last.files)];
      if p == last.path {
        assert steps[|steps| - 1].path == p;
      } else if p in StructureOf(init) {
        var i :| 0 <= i < |init| && init[i].path == p;
        assert steps[i].path == p;
      } else {
        forall i | 0 <= i < |steps| ensures steps[i].path != p {
          if i < |init| { assert init[i] == steps[i]; }
        }
      }
    }
  }

  /** When every step for directory `p` lists the same files, the map holds
      exactly those, sorted. */
  lemma {:induction false} StructureOfValue(steps: seq<WalkStep>, p: Path, files: seq<string>)
    requires forall i :: 0 <= i < |steps| && steps[i].path == p ==> steps[i].files == files
    requires p in StructureOf(steps)
    ensures StructureOf(steps)[p] == Sort(files)
  {
    var init := steps[..|steps| - 1];
    if steps[|steps| - 1].path != p {
      assert forall i :: 0 <= i < |init| ==> init[i] == steps[i];
      StructureOfValue(init, p, files);
    }
  }

  /** What get_folder_structure promises about an existing root: its keys are
      the directories reached through visible names only ("." included), and
      each value is the sorted list of the files directly in that directory
      (hidden files kept). */
  lemma FolderStructureSpec(root: Node, p: Path)
    requires WellFormed(root)
    ensures p in FolderStructure(Some(root)) <==> Visible(p) && IsDirAt(root, p)
    ensures p in FolderStructure(Some(root)) ==> FolderStructure(Some(root))[p] == Sort(FilesAt(root, p))
  {
    var steps := Walk(root, [], true);
    StructureOfKeys(steps, p);
    if p in FolderStructure(Some(root)) {
      var i :| 0 <= i < |steps| && steps[i].path == p;
      WalkSound(root, [], true, steps[i]);
      assert steps[i].path[0..] == p;
      forall j | 0 <= j < |steps| && steps[j].path == p ensures steps[j].files == FilesAt(root, p) {
        WalkSound(root, [], true, steps[j]);
        assert steps[j].path[0..] == p;
      }
      StructureOfValue(steps, p, FilesAt(root, p));
    }
    if Visible(p) && IsDirAt(root, p) {
      WalkComplete(root, [], true, p);
      assert [] + p == p;
      var i :| 0 <= i < |steps| && steps[i] == WalkStep(p, FilesAt(root, p));
    }
  }

  /** A root that is missing, or is a regular file, has the empty structure. */
  lemma NoDirectoryNoStructure(root: Option<Node>)
    requires root.None? || root.value.File?
    ensures FolderStructure(root) == map[]
  {
  }

  /** Equal folder structures mean the same visible directories, each with
      the same file names. */
  lemma EqualStructureSameTrees(a: Node, b: Node, p: Path)
    requires WellFormed(a) && WellFormed(b)
    requires FolderStructure(Some(a)) == FolderStructure(Some(b)) && Visible(p)
    ensures IsDirAt(a, p) <==> IsDirAt(b, p)
    ensures IsDirAt(a, p) ==> multiset(FilesAt(a, p)) == multiset(FilesAt(b, p))
  {
    FolderStructureSpec(a, p);
    FolderStructureSpec(b, p);
    SortPermutes(FilesAt(a, p));
    SortPermutes(FilesAt(b, p));
  }

  /** Trees with the same visible directories, each with the same file names
      in whatever listing order, have equal folder structures. */
  lemma SameTreesEqualStructure(a: Node, b: Node)
    requires WellFormed(a) && WellFormed(b)
    requires forall p :: Visible(p) ==> (IsDirAt(a, p) <==> IsDirAt(b, p))
    requires forall p :: Visible(p) && IsDirAt(a, p) ==> multiset(FilesAt(a, p)) == multiset(FilesAt(b, p))
    ensures FolderStructure(Some(a)) == FolderStructure(Some(b))
  {
    var ma, mb := FolderStructure(Some(a)), FolderStructure(Some(b));
    forall p ensures p in ma <==> p in mb {
      FolderStructureSpec(a, p);
      FolderStructureSpec(b, p);
    }
    forall p | p in ma ensures ma[p] == mb[p] {
      FolderStructureSpec(a, p);
      FolderStructureSpec(b, p);
      SortIgnoresOrder(FilesAt(a, p), FilesAt(b, p));
    }
  }

  /** Two trees have equal folder structures exactly when they have the same
      visible directories and each such directory holds the same file names:
      a missing directory, an extra one, or a different file list in any one
      of them makes the maps differ. */
  lemma FolderStructureEqual(a: Node, b: Node)
    requires WellFormed(a) && WellFormed(b)
    ensures FolderStructure(Some(a)) == FolderStructure(Some(b)) <==>
      (forall p :: Visible(p) ==> (IsDirAt(a, p) <==> IsDirAt(b, p))) &&
      (forall p :: Visible(p) && IsDirAt(a, p) ==> multiset(FilesAt(a, p)) == multiset(FilesAt(b, p)))
  {
    if FolderStructure(Some(a)) == FolderStructure(Some(b)) {
      forall p | Visible(p)
        ensures IsDirAt(a, p) <==> IsDirAt(b, p)
        ensures IsDirAt(a, p) ==> multiset(FilesAt(a, p)) == multiset(FilesAt(b, p))
      {
        EqualStructureSameTrees(a, b, p);
      }
    }
    if (forall p :: Visible(p) ==> (IsDirAt(a, p) <==> IsDirAt(b, p))) &&
       (forall p :: Visible(p) && IsDirAt(a, p) ==> multiset(FilesAt(a, p)) == multiset(FilesAt(b, p)))
    {
      SameTreesEqualStructure(a, b);
    }
  }
}
