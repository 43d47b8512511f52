/** An in-memory filesystem standing in for the directory tree the script
    reads, and os.walk over it. */
module FileTree {

  datatype Option<+T> = None | Some(value: T)

  /** A relative path as its components; the directory itself (".") is []. */
  type Path = seq<string>

  /** A regular file with its text, or a directory whose entries are in
      listing order (the order os.listdir and os.walk report them in). */
  datatype Node = File(content: string) | Dir(entries: seq<Entry>)

  datatype Entry = Entry(name: string, node: Node)

  /** The `startswith('.')` test the script applies to names. */
  predicate IsHidden(name: string)
  {
    |name| > 0 && name[0] == '.'
  }

  /** No hidden component anywhere on the path. */
  predicate Visible(p: Path)
  {
    forall i :: 0 <= i < |p| ==> !IsHidden(p[i])
  }

  predicate DistinctNames(es: seq<Entry>)
  {
    forall i, j :: 0 <= i < j < |es| ==> es[i].name != es[j].name
  }

  /** What every real directory satisfies: no name is listed twice. */
  predicate WellFormed(n: Node)
  {
    match n
    case File(_) => true
    case Dir(es) => DistinctNames(es) && forall i :: 0 <= i < |es| ==> WellFormed(es[i].node)
  }

  /** The first entry called `name`; with distinct names, the only one. */
  function Find(es: seq<Entry>, name: string): (r: Option<Node>)
    ensures r.Some? <==> exists i :: 0 <= i < |es| && es[i].name == name
  {
    if es == [] then None
    else if es[0].name == name then Some(es[0].node)
    else Find(es[1..], name)
  }

  /** The node `p` names below `n` (os.path.join followed by a stat);
      None when some component is missing or a file is used as a directory. */
  function Lookup(n: Node, p: Path): Option<Node>
    decreases |p|
  {
    if p == [] then Some(n)
    else match n
      case File(_) => None
      case Dir(es) =>
        match Find(es, p[0])
        case None => None
        case Some(c) => Lookup(c, p[1..])
  }

  predicate IsDirAt(n: Node, p: Path)
  {
    Lookup(n, p).Some? && Lookup(n, p).value.Dir?
  }

  predicate IsFileAt(n: Node, p: Path)
  {
    Lookup(n, p).Some? && Lookup(n, p).value.File?
  }

  /** The names of the regular files directly in a directory, in listing order. */
  function FileNames(es: seq<Entry>): (names: seq<string>)
    ensures forall x :: x in names <==> exists i :: 0 <= i < |es| && es[i].name == x && es[i].node.File?
  {
    if es == [] then []
    else (if es[0].node.File? then [es[0].name] else []) + FileNames(es[1..])
  }

  /** The plain files directly in the directory at `p`; none when `p` is not a directory. */
  function FilesAt(n: Node, p: Path): seq<string>
  {
    match Lookup(n, p)
    case Some(Dir(es)) => FileNames(es)
    case _ => []
  }

  /** One triple of os.walk, reduced to what the script uses: the directory
      (relative to the walk's top) and the file names in it. */
  datatype WalkStep = WalkStep(path: Path, files: seq<string>)

  /** Whether the walk enters entry `e`: only directories, and, when the
      caller prunes `dirnames` to drop hidden names, only visible ones. */
  predicate Descends(e: Entry, prune: bool)
  {
    e.node.Dir? && !(prune && IsHidden(e.name))
  }

  /** os.walk(top) in its default top-down order: the directory itself, then
      the walk of each subdirectory it descends into, in listing order.
      A top that is a regular file yields nothing. */
  function Walk(n: Node, prefix: Path, prune: bool): seq<WalkStep>
    decreases n, 1
  {
    match n
    case File(_) => []
    case Dir(es) => [WalkStep(prefix, FileNames(es))] + WalkEntries(es, prefix, prune)
  }

  function WalkEntries(es: seq<Entry>, prefix: Path, prune: bool): seq<WalkStep>
    decreases es, 0
  {
    if es == [] then []
    else
      (if Descends(es[0], prune) then Walk(es[0].node, prefix + [es[0].name], prune) else [])
      + WalkEntries(es[1..], prefix, prune)
  }

  /** os.walk on a path: a missing top yields nothing. */
  function OsWalk(top: Option<Node>, prune: bool): seq<WalkStep>
  {
    match top
    case None => []
    case Some(n) => Walk(n, [], prune)
  }

  /** A non-empty path is its directory part followed by its last name. */
  lemma SplitLast(p: Path)
    requires |p| > 0
    ensures p == p[..|p| - 1] + [p[|p| - 1]]
  {
  }

  /** Looking up a concatenated path is looking up its parts in turn. */
  lemma {:induction false} LookupAppend(n: Node, p: Path, q: Path)
    ensures Lookup(n, p + q) == if Lookup(n, p).None? then None else Lookup(Lookup(n, p).value, q)
    decreases |p|
  {
    if p == [] {
      assert p + q == q;
    } else {
      assert (p + q)[0] == p[0];
      assert (p + q)[1..] == p[1..] + q;
      match n
      case File(_) =>
      case Dir(es) =>
        match Find(es, p[0])
        case None =>
        case Some(c) => LookupAppend(c, p[1..], q);
    }
  }

  /** A one-component path names an entry of the directory itself. */
  lemma LookupChild(n: Node, name: string)
    ensures Lookup(n, [name]) == if n.Dir? then Find(n.entries, name) else None
  {
    assert [name][0] == name && [name][1..] == [];
    if n.Dir? && Find(n.entries, name).Some? {
      assert Lookup(Find(n.entries, name).value, []) == Find(n.entries, name);
    }
  }

  lemma {:induction false} FindWellFormed(es: seq<Entry>, name: string)
    requires forall i :: 0 <= i < |es| ==> WellFormed(es[i].node)
    requires Find(es, name).Some?
    ensures WellFormed(Find(es, name).value)
  {
    if es[0].name != name {
      assert forall i :: 0 <= i < |es[1..]| ==> es[1..][i] == es[i + 1];
      FindWellFormed(es[1..], name);
    }
  }

  /** Every subtree of a well-formed tree is well formed. */
  lemma {:induction false} LookupWellFormed(n: Node, p: Path)
    requires WellFormed(n) && Lookup(n, p).Some?
    ensures WellFormed(Lookup(n, p).value)
    decreases |p|
  {
    if p != [] {
      FindWellFormed(n.entries, p[0]);
      LookupWellFormed(Find(n.entries, p[0]).value, p[1..]);
    }
  }

  /** With distinct names, a lookup of a name present in the tail of the
      listing is not captured by the first entry. */
  lemma FindTail(es: seq<Entry>, name: string)
    requires DistinctNames(es) && |es| > 0 && Find(es[1..], name).Some?
    ensures Find(es, name) == Find(es[1..], name)
  {
    var j :| 0 <= j < |es[1..]| && es[1..][j].name == name;
    assert es[j + 1].name == name;
  }

  /** With distinct names, a name is a plain file of the directory exactly
      when looking it up finds a regular file. */
  lemma {:induction false} FindFile(es: seq<Entry>, name: string)
    requires DistinctNames(es)
    ensures name in FileNames(es) <==> Find(es, name).Some? && Find(es, name).value.File?
  {
    if es != [] {
      FindFile(es[1..], name);
    }
  }

  /** Every step of a walk is a directory below the top, reached through
      visible names when the walk prunes, and lists that directory's files. */
  lemma {:induction false} WalkSound(n: Node, prefix: Path, prune: bool, s: WalkStep)
    requires WellFormed(n) && s in Walk(n, prefix, prune)
    ensures |prefix| <= |s.path| && s.path[..|prefix|] == prefix
    ensures IsDirAt(n, s.path[|prefix|..]) && s.files == FilesAt(n, s.path[|prefix|..])
    ensures prune ==> Visible(s.path[|prefix|..])
    decreases n, 1
  {
    match n
    case Dir(es) =>
      if s in WalkEntries(es, prefix, prune) {
        WalkEntriesSound(es, prefix, prune, s);
      } else {
        assert s == WalkStep(prefix, FileNames(es));
        assert s.path[|prefix|..] == [];
      }
  }

  lemma {:induction false} WalkEntriesSound(es: seq<Entry>, prefix: Path, prune: bool, s: WalkStep)
    requires WellFormed(Dir(es)) && s in WalkEntries(es, prefix, prune)
    ensures |prefix| < |s.path| && s.path[..|prefix|] == prefix
    ensures IsDirAt(Dir(es), s.path[|prefix|..]) && s.files == FilesAt(Dir(es), s.path[|prefix|..])
    ensures prune ==> Visible(s.path[|prefix|..])
    decreases es, 0
  {
    var e := es[0];
    var head := if Descends(e, prune) then Walk(e.node, prefix + [e.name], prune) else [];
    assert WalkEntries(es, prefix, prune) == head + WalkEntries(es[1..], prefix, prune);
    if s in head {
      assert WellFormed(es[0].node);
      WalkSound(e.node, prefix + [e.name], prune, s);
      BelowFirstEntry(es, prefix, s.path);
    } else {
      TailWellFormed(es);
      WalkEntriesSound(es[1..], prefix, prune, s);
      var rel := s.path[|prefix|..];
      assert Lookup(Dir(es[1..]), rel).Some?;
      FindTail(es, rel[0]);
      assert Lookup(Dir(es), rel) == Lookup(Dir(es[1..]), rel);
    }
  }

  /** A path that runs through the first entry of a listing: looking it up
      from the listing is looking up the rest from that entry, and it is
      visible when the entry's name and the rest are. */
  lemma BelowFirstEntry(es: seq<Entry>, prefix: Path, p: Path)
    requires |es| > 0 && |prefix| + 1 <= |p| && p[..|prefix| + 1] == prefix + [es[0].name]
    ensures p[..|prefix|] == prefix
    ensures Lookup(Dir(es), p[|prefix|..]) == Lookup(es[0].node, p[|prefix| + 1..])
    ensures !IsHidden(es[0].name) && Visible(p[|prefix| + 1..]) ==> Visible(p[|prefix|..])
  {
    var inner := p[|prefix| + 1..];
    var rel := p[|prefix|..];
    assert rel == [es[0].name] + inner;
    assert rel[0] == es[0].name && rel[1..] == inner;
    if !IsHidden(es[0].name) && Visible(inner) {
      forall i | 0 <= i < |rel| ensures !IsHidden(rel[i]) {
        if i > 0 { assert rel[i] == inner[i - 1]; }
      }
    }
  }

  /** Dropping the first entry of a well-formed listing leaves one. */
  lemma TailWellFormed(es: seq<Entry>)
    requires WellFormed(Dir(es)) && |es| > 0
    ensures WellFormed(Dir(es[1..]))
  {
    var tail := es[1..];
    forall i | 0 <= i < |tail| ensures WellFormed(tail[i].node) {
      assert tail[i] == es[i + 1];
    }
  }

  /** Walking a listing reaches everything the walk of any entry it
      descends into reaches. */
  lemma {:induction false} WalkEntriesIncludes(es: seq<Entry>, name: string, c: Node, prefix: Path, prune: bool)
    requires Find(es, name) == Some(c) && Descends(Entry(name, c), prune)
    ensures forall s :: s in Walk(c, prefix + [name], prune) ==> s in WalkEntries(es, prefix, prune)
  {
    if es[0].name != name {
      WalkEntriesIncludes(es[1..], name, c, prefix, prune);
    }
  }

  /** Every directory below the top, reached through visible names when the
      walk prunes, is visited with its files. */
  lemma {:induction false} WalkComplete(n: Node, prefix: Path, prune: bool, rel: Path)
    requires IsDirAt(n, rel) && (prune ==> Visible(rel))
    ensures WalkStep(prefix + rel, FilesAt(n, rel)) in Walk(n, prefix, prune)
    decreases |rel|
  {
    if rel == [] {
      assert prefix + rel == prefix;
    } else {
      var es := n.entries;
      var c := Find(es, rel[0]).value;
      assert Lookup(n, rel) == Lookup(c, rel[1..]);
      assert c.Dir? by {
        if rel[1..] != [] { assert Lookup(c, rel[1..]).Some?; }
      }
      assert prune ==> Visible(rel[1..]) by {
        if prune {
          forall i | 0 <= i < |rel[1..]| ensures !IsHidden(rel[1..][i]) {
            assert rel[1..][i] == rel[i + 1];
          }
        }
      }
      assert prune ==> !IsHidden(rel[0]);
      WalkComplete(c, prefix + [rel[0]], prune, rel[1..]);
      assert prefix + [rel[0]] + rel[1..] == prefix + rel;
      assert FilesAt(c, rel[1..]) == FilesAt(n, rel);
      WalkEntriesIncludes(es, rel[0], c, prefix, prune);
    }
  }

  /** No element occurs twice. */
  predicate Distinct<T(==)>(s: seq<T>)
  {
    forall i, j :: 0 <= i < j < |s| ==> s[i] != s[j]
  }

  /** Two duplicate-free sequences with nothing in common join into one. */
  lemma DistinctConcat<T>(a: seq<T>, b: seq<T>)
    requires Distinct(a) && Distinct(b)
    requires forall x :: x in a ==> x !in b
    ensures Distinct(a + b)
  {
    forall i, j | 0 <= i < j < |a + b| ensures (a + b)[i] != (a + b)[j] {
      if i < |a| && j >= |a| {
        assert (a + b)[i] in a && (a + b)[j] in b;
      }
    }
  }

  /** A listing without repeated names lists each file name once. */
  lemma {:induction false} FileNamesDistinct(es: seq<Entry>)
    requires DistinctNames(es)
    ensures Distinct(FileNames(es))
  {
    if es != [] {
      assert DistinctNames(es[1..]) by {
        forall i, j | 0 <= i < j < |es[1..]| ensures es[1..][i].name != es[1..][j].name {
          assert es[1..][i] == es[i + 1] && es[1..][j] == es[j + 1];
        }
      }
      FileNamesDistinct(es[1..]);
      var head := if es[0].node.File? then [es[0].name] else [];
      assert forall x :: x in head ==> x !in FileNames(es[1..]);
      DistinctConcat(head, FileNames(es[1..]));
    }
  }

  /** No two steps of a walk are for the same directory. */
  predicate DistinctPaths(steps: seq<WalkStep>)
  {
    forall i, j :: 0 <= i < j < |steps| ==> steps[i].path != steps[j].path
  }

  lemma DistinctPathsConcat(a: seq<WalkStep>, b: seq<WalkStep>)
    requires DistinctPaths(a) && DistinctPaths(b)
    requires forall s, t :: s in a && t in b ==> s.path != t.path
    ensures DistinctPaths(a + b)
  {
    forall i, j | 0 <= i < j < |a + b| ensures (a + b)[i].path != (a + b)[j].path {
      if i < |a| && j >= |a| {
        assert (a + b)[i] in a && (a + b)[j] in b;
      }
    }
  }

  /** A step of the walk of a listing is below one of its entries. */
  lemma EntriesStepName(es: seq<Entry>, prefix: Path, prune: bool, s: WalkStep)
    requires WellFormed(Dir(es)) && s in WalkEntries(es, prefix, prune)
    ensures |prefix| < |s.path| && exists k :: 0 <= k < |es| && es[k].name == s.path[|prefix|]
  {
    WalkEntriesSound(es, prefix, prune, s);
    var rel := s.path[|prefix|..];
    assert rel[0] == s.path[|prefix|];
    assert Find(es, rel[0]).Some?;
  }

  /** os.walk never visits a directory twice. */
  lemma {:induction false} WalkDistinct(n: Node, prefix: Path, prune: bool)
    requires WellFormed(n)
    ensures DistinctPaths(Walk(n, prefix, prune))
    decreases n, 1
  {
    match n
    case File(_) =>
    case Dir(es) =>
      WalkEntriesDistinct(es, prefix, prune);
      forall t | t in WalkEntries(es, prefix, prune) ensures t.path != prefix {
        WalkEntriesSound(es, prefix, prune, t);
      }
      DistinctPathsConcat([WalkStep(prefix, FileNames(es))], WalkEntries(es, prefix, prune));
  }

  lemma {:induction false} WalkEntriesDistinct(es: seq<Entry>, prefix: Path, prune: bool)
    requires WellFormed(Dir(es))
    ensures DistinctPaths(WalkEntries(es, prefix, prune))
    decreases es, 0
  {
    if es != [] {
      var e := es[0];
      var head := if Descends(e, prune) then Walk(e.node, prefix + [e.name], prune) else [];
      var rest := WalkEntries(es[1..], prefix, prune);
      assert WellFormed(e.node);
      if Descends(e, prune) {
        WalkDistinct(e.node, prefix + [e.name], prune);
      }
      TailWellFormed(es);
      WalkEntriesDistinct(es[1..], prefix, prune);
      forall s, t | s in head && t in rest ensures s.path != t.path {
        WalkSound(e.node, prefix + [e.name], prune, s);
        assert s.path[|prefix|] == (prefix + [e.name])[|prefix|] == e.name;
        EntriesStepName(es[1..], prefix, prune, t);
        var k :| 0 <= k < |es[1..]| && es[1..][k].name == t.path[|prefix|];
        assert es[k + 1].name != e.name;
      }
      DistinctPathsConcat(head, rest);
    }
  }
}
