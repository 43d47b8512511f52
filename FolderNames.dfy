/** check_folder_names: the language folders of the working directory whose
    names are not recognised. */
module FolderNames {
  import opened FileTree
  import opened Languages

  /** The first comprehension: the immediate subdirectories whose names do not
      start with '.', in listing order. */
  function VisibleFolders(listing: seq<Entry>): (folders: seq<string>)
    ensures |folders| <= |listing|
  {
    if listing == [] then []
    else
      (if listing[0].node.Dir? && !IsHidden(listing[0].name) then [listing[0].name] else [])
      + VisibleFolders(listing[1..])
  }

  /** The second comprehension: the folders not in the allowed set, in order. */
  function NotAllowed(folders: seq<string>): (r: seq<string>)
    ensures |r| <= |folders|
    ensures forall k :: 0 <= k < |r| ==> r[k] !in AllowedLanguages
  {
    if folders == [] then []
    else (if folders[0] !in AllowedLanguages then [folders[0]] else []) + NotAllowed(folders[1..])
  }

  /** An entry the check reports: a visible directory with an unknown name. */
  predicate IsInvalidFolder(e: Entry)
  {
    e.node.Dir? && !IsHidden(e.name) && e.name !in AllowedLanguages
  }

  /** check_folder_names on the listing of the base directory. */
  function CheckFolderNames(listing: seq<Entry>): (invalid: seq<string>)
    ensures forall k :: 0 <= k < |invalid| ==> invalid[k] !in AllowedLanguages
    ensures |invalid| <= |listing|
  {
    NotAllowed(VisibleFolders(listing))
  }

  lemma {:induction false} NotAllowedAppend(a: seq<string>, b: seq<string>)
    ensures NotAllowed(a + b) == NotAllowed(a) + NotAllowed(b)
  {
    if a == [] {
      assert a + b == b;
    } else {
      assert (a + b)[0] == a[0] && (a + b)[1..] == a[1..] + b;
      NotAllowedAppend(a[1..], b);
    }
  }

  lemma {:induction false} VisibleFoldersAppend(a: seq<Entry>, b: seq<Entry>)
    ensures VisibleFolders(a + b) == VisibleFolders(a) + VisibleFolders(b)
  {
    if a == [] {
      assert a + b == b;
    } else {
      assert (a + b)[0] == a[0] && (a + b)[1..] == a[1..] + b;
      VisibleFoldersAppend(a[1..], b);
    }
  }

  /** The result keeps listing order: checking a listing in two parts and
      joining the answers is checking it whole, and one entry contributes its
      name exactly when it is a visible directory with an unknown name. */
  lemma {:induction false} CheckFolderNamesAppend(a: seq<Entry>, b: seq<Entry>, e: Entry)
    ensures CheckFolderNames(a + b) == CheckFolderNames(a) + CheckFolderNames(b)
    ensures CheckFolderNames([e]) == if IsInvalidFolder(e) then [e.name] else []
  {
    VisibleFoldersAppend(a, b);
    NotAllowedAppend(VisibleFolders(a), VisibleFolders(b));
    assert [e][1..] == [] && [e.name][1..] == [];
    assert VisibleFolders([e]) == if e.node.Dir? && !IsHidden(e.name) then [e.name] else [];
  }

  /** A name is reported exactly when the listing holds a visible directory of
      that name outside the allowed set. */
  lemma {:induction false} CheckFolderNamesMembers(listing: seq<Entry>, x: string)
    ensures x in CheckFolderNames(listing) <==>
      exists i :: 0 <= i < |listing| && listing[i].name == x && IsInvalidFolder(listing[i])
  {
    if listing != [] {
      CheckFolderNamesAppend([listing[0]], listing[1..], listing[0]);
      assert listing == [listing[0]] + listing[1..];
      CheckFolderNamesMembers(listing[1..], x);
      if x in CheckFolderNames(listing[1..]) {
        var i :| 0 <= i < |listing[1..]| && listing[1..][i].name == x && IsInvalidFolder(listing[1..][i]);
        assert listing[i + 1] == listing[1..][i];
      }
      if exists i :: 0 <= i < |listing| && listing[i].name == x && IsInvalidFolder(listing[i]) {
        var i :| 0 <= i < |listing| && listing[i].name == x && IsInvalidFolder(listing[i]);
        if i > 0 { assert listing[1..][i - 1] == listing[i]; }
      }
    }
  }
}
