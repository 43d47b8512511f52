/** compare_structure: every existing language folder must have the folder
    structure of the reference language. */
module StructureCheck {
  import opened FileTree
  import opened Languages
  import opened FolderTree

  const FolderMismatch: string := "Folder structure mismatch"

  /** The language folder directly under the base directory, if it exists
      (as a directory or as anything else: os.path.exists). */
  function LanguageRoot(base: Node, lang: string): Option<Node>
  {
    Lookup(base, [lang])
  }

  /** The entry compare_structure records for one language: only for a
      language other than the reference whose folder exists and whose folder
      structure is not the reference's. A missing folder only draws a
      warning. */
  function StructureIssue(base: Node, ref: string, lang: string): Option<string>
  {
    if lang != ref && LanguageRoot(base, lang).Some?
       && FolderStructure(LanguageRoot(base, lang)) != FolderStructure(LanguageRoot(base, ref))
    then Some(FolderMismatch)
    else None
  }

  /** Each language's entry, as a function of the language. */
  function StructureIssueOf(base: Node, ref: string): string -> Option<string>
  {
    lang => StructureIssue(base, ref, lang)
  }

  /** The issues recorded for the languages in `langs`. */
  function MismatchesAmong(base: Node, ref: string, langs: set<string>): map<string, string>
  {
    Entries(langs, StructureIssueOf(base, ref))
  }

  function StructureIssues(base: Node, ref: string): map<string, string>
  {
    MismatchesAmong(base, ref, AllowedLanguages)
  }

  /** compare_structure: the loop over the allowed languages, in whatever
      order the set yields them. */
  method CompareStructure(base: Node, ref: string) returns (issues: map<string, string>)
    ensures issues == StructureIssues(base, ref)
  {
    var referenceStructure := GetFolderStructure(LanguageRoot(base, ref));
    issues := map[];
    var pending := AllowedLanguages;
    while pending != {}
      invariant pending <= AllowedLanguages
      invariant issues == MismatchesAmong(base, ref, AllowedLanguages - pending)
      decreases pending
    {
      var lang :| lang in pending;
      EntriesStep(AllowedLanguages - pending, lang, StructureIssueOf(base, ref));
      assert (AllowedLanguages - pending) + {lang} == AllowedLanguages - (pending - {lang});
      if lang != ref {
        var langRoot := LanguageRoot(base, lang);
        if langRoot.Some? {
          var langStructure := GetFolderStructure(langRoot);
          if langStructure != referenceStructure {
            issues := issues[lang := FolderMismatch];
          }
        }
      }
      pending := pending - {lang};
    }
    assert AllowedLanguages - pending == AllowedLanguages;
  }

  /** Which languages compare_structure reports, and with what: only allowed
      languages other than the reference, never one whose folder is missing,
      and an existing one exactly when its folder structure differs from the
      reference's; the message is always the same. */
  lemma StructureIssuesSpec(base: Node, ref: string, lang: string)
    ensures lang in StructureIssues(base, ref) ==> lang in AllowedLanguages && lang != ref
    ensures LanguageRoot(base, lang).None? ==> lang !in StructureIssues(base, ref)
    ensures lang in AllowedLanguages && lang != ref && LanguageRoot(base, lang).Some? ==>
      (lang in StructureIssues(base, ref) <==>
       FolderStructure(LanguageRoot(base, lang)) != FolderStructure(LanguageRoot(base, ref)))
    ensures lang in StructureIssues(base, ref) ==> StructureIssues(base, ref)[lang] == FolderMismatch
  {
  }

  /** For two existing directories, the comparison flags a language exactly
      when some visible directory is in one tree and not the other, or some
      visible directory holds different file names in the two. */
  lemma MismatchMeansTreesDiffer(base: Node, ref: string, lang: string)
    requires WellFormed(base)
    requires lang in AllowedLanguages && lang != ref
    requires LanguageRoot(base, lang).Some? && LanguageRoot(base, ref).Some?
    ensures lang in StructureIssues(base, ref) <==>
      (exists p :: Visible(p) && !(IsDirAt(LanguageRoot(base, lang).value, p) <==> IsDirAt(LanguageRoot(base, ref).value, p))) ||
      (exists p :: Visible(p) && IsDirAt(LanguageRoot(base, lang).value, p) &&
         multiset(FilesAt(LanguageRoot(base, lang).value, p)) != multiset(FilesAt(LanguageRoot(base, ref).value, p)))
  {
    var l, r := LanguageRoot(base, lang).value, LanguageRoot(base, ref).value;
    ChildWellFormed(base, lang);
    ChildWellFormed(base, ref);
    FolderStructureEqual(l, r);
  }

  /** With the reference folder missing, every language whose folder is a
      directory is flagged: its structure holds at least ".", the reference's
      is empty. */
  lemma MissingReferenceFlagsAll(base: Node, ref: string, lang: string)
    requires WellFormed(base)
    requires LanguageRoot(base, ref).None?
    requires lang in AllowedLanguages && lang != ref
    requires LanguageRoot(base, lang).Some? && LanguageRoot(base, lang).value.Dir?
    ensures lang in StructureIssues(base, ref)
  {
    var l := LanguageRoot(base, lang).value;
    ChildWellFormed(base, lang);
    FolderStructureSpec(l, []);
    assert [] in FolderStructure(LanguageRoot(base, lang));
  }

  /** A language folder of a well-formed base directory is well formed. */
  lemma ChildWellFormed(base: Node, name: string)
    requires WellFormed(base) && LanguageRoot(base, name).Some?
    ensures WellFormed(LanguageRoot(base, name).value)
  {
    LookupWellFormed(base, [name]);
  }
}
