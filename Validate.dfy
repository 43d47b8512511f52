/** main: the three checks run in order on the working directory, with "en"
    as the reference language; the first one with findings ends the run with
    exit status 1, and a clean run ends with status 0. */
module Validate {
  import opened FileTree
  import opened Languages
  import opened FolderTree
  import opened FolderNames
  import opened StructureCheck
  import opened JsonCheck

  datatype Stage = FolderNamesStage | StructureStage | JsonStage

  /** How a run ends: "Validation passed!", exit(1) after the first stage with
      findings, or an exception escaping validate_json_structure. */
  datatype Verdict = Pass | Fail(stage: Stage) | Raised

  /** The process exit status: 0 only after "Validation passed!"; exit(1)
      and an uncaught exception both give 1. */
  function ExitStatus(v: Verdict): (code: int)
    ensures code == 0 <==> v == Pass
    ensures code == 0 || code == 1
  {
    match v
    case Pass => 0
    case _ => 1
  }

  /** The verdict of a run in the directory listed by `cwd`. */
  function ValidationVerdict(cwd: seq<Entry>, parse: string -> Json): Verdict
  {
    var base := Dir(cwd);
    if CheckFolderNames(cwd) != [] then Fail(FolderNamesStage)
    else if StructureIssues(base, ReferenceLanguage) != map[] then Fail(StructureStage)
    else match JsonIssues(base, ReferenceLanguage, parse)
      case Aborted => Raised
      case Completed(issues) => if issues != map[] then Fail(JsonStage) else Pass
  }

  /** main, with the working directory's listing as `cwd` and json.load as
      `parse`. */
  method Validate(cwd: seq<Entry>, parse: string -> Json) returns (verdict: Verdict)
    ensures verdict == ValidationVerdict(cwd, parse)
    ensures ExitStatus(verdict) == 0 <==>
      CheckFolderNames(cwd) == [] && StructureIssues(Dir(cwd), ReferenceLanguage) == map[]
      && JsonIssues(Dir(cwd), ReferenceLanguage, parse) == Completed(map[])
  {
    var base := Dir(cwd);
    var invalidFolders := CheckFolderNames(cwd);
    if invalidFolders != [] {
      return Fail(FolderNamesStage);
    }
    var structureIssues := CompareStructure(base, ReferenceLanguage);
    if structureIssues != map[] {
      return Fail(StructureStage);
    }
    var jsonIssues := ValidateJsonStructure(base, ReferenceLanguage, parse);
    match jsonIssues
    case Aborted =>
      return Raised;
    case Completed(issues) =>
      if issues != map[] {
        return Fail(JsonStage);
      }
    return Pass;
  }

  /** A passing run had no visible folder with an unknown name. */
  lemma PassNamesAllowed(cwd: seq<Entry>, parse: string -> Json)
    requires WellFormed(Dir(cwd)) && ValidationVerdict(cwd, parse) == Pass
    ensures forall i :: 0 <= i < |cwd| && cwd[i].node.Dir? && !IsHidden(cwd[i].name) ==>
      cwd[i].name in AllowedLanguages
  {
    forall i | 0 <= i < |cwd| && cwd[i].node.Dir? && !IsHidden(cwd[i].name)
      ensures cwd[i].name in AllowedLanguages
    {
      CheckFolderNamesMembers(cwd, cwd[i].name);
    }
  }

  /** After a passing run, every other allowed language that exists has the
      folder structure of "en". */
  lemma PassStructures(cwd: seq<Entry>, parse: string -> Json, lang: string)
    requires WellFormed(Dir(cwd)) && ValidationVerdict(cwd, parse) == Pass
    requires lang in AllowedLanguages && Checked(Dir(cwd), ReferenceLanguage, lang)
    ensures FolderStructure(LanguageRoot(Dir(cwd), lang)) == FolderStructure(LanguageRoot(Dir(cwd), ReferenceLanguage))
  {
    StructureIssuesSpec(Dir(cwd), ReferenceLanguage, lang);
  }

  /** After a passing run, each .json file below "en" has a counterpart file
      in every other existing allowed language, both parse as objects, and
      their top-level keys agree. */
  lemma PassJsonFiles(cwd: seq<Entry>, parse: string -> Json, lang: string, rel: Path)
    requires WellFormed(Dir(cwd)) && ValidationVerdict(cwd, parse) == Pass
    requires lang in AllowedLanguages && Checked(Dir(cwd), ReferenceLanguage, lang)
    requires IsReferenceJson(Dir(cwd), ReferenceLanguage, rel)
    ensures IsFileAt(Dir(cwd), [lang] + rel)
    ensures var refData, langData :=
        parse(Lookup(Dir(cwd), [ReferenceLanguage] + rel).value.content),
        parse(Lookup(Dir(cwd), [lang] + rel).value.content);
      refData.Object? && langData.Object? && refData.keys == langData.keys
  {
    var base, ref := Dir(cwd), ReferenceLanguage;
    UnreportedConsistent(base, ref, parse, lang, rel);
    ReferenceCheck(base, ref, lang, rel, parse);
  }

  /** With only allowed names among the visible folders, the name check is
      clean. */
  lemma AllowedNamesClean(cwd: seq<Entry>)
    requires forall i :: 0 <= i < |cwd| && cwd[i].node.Dir? && !IsHidden(cwd[i].name) ==>
      cwd[i].name in AllowedLanguages
    ensures CheckFolderNames(cwd) == []
  {
    if CheckFolderNames(cwd) != [] {
      CheckFolderNamesMembers(cwd, CheckFolderNames(cwd)[0]);
    }
  }

  /** Language folders that are all exact copies of the reference give no
      structure issue. */
  lemma CopiesHaveSameStructure(base: Node, ref: string)
    requires forall lang :: lang in AllowedLanguages && LanguageRoot(base, lang).Some? ==>
      LanguageRoot(base, lang) == LanguageRoot(base, ref)
    ensures StructureIssues(base, ref) == map[]
  {
    forall lang ensures lang !in StructureIssues(base, ref) {
      StructureIssuesSpec(base, ref, lang);
    }
  }

  /** Language folders that are all exact copies of the reference, whose
      .json files parse as objects, give no JSON issue and no exception. */
  lemma CopiesHaveSameJson(base: Node, ref: string, parse: string -> Json)
    requires WellFormed(base)
    requires forall lang :: lang in AllowedLanguages && LanguageRoot(base, lang).Some? ==>
      LanguageRoot(base, lang) == LanguageRoot(base, ref)
    requires forall rel :: IsReferenceJson(base, ref, rel) ==> parse(Lookup(base, [ref] + rel).value.content).Object?
    ensures JsonIssues(base, ref, parse) == Completed(map[])
  {
    var issues := IssuesAmong(base, ref, AllowedLanguages, parse);
    forall lang | lang in AllowedLanguages
      ensures !LangCrashes(base, ref, lang, parse) && lang !in issues
    {
      if LanguageRoot(base, lang).Some? {
        CopyIsClean(base, ref, parse, lang);
      }
    }
    assert issues.Keys == {};
  }

  /** A language folder that is an exact copy of the reference, whose .json
      files parse as objects, leaves no entry and raises nothing. */
  lemma CopyIsClean(base: Node, ref: string, parse: string -> Json, lang: string)
    requires WellFormed(base) && LanguageRoot(base, lang) == LanguageRoot(base, ref)
    requires forall rel :: IsReferenceJson(base, ref, rel) ==> parse(Lookup(base, [ref] + rel).value.content).Object?
    ensures !LangCrashes(base, ref, lang, parse) && LangIssue(base, ref, lang, parse).None?
  {
    forall rel | IsReferenceJson(base, ref, rel)
      ensures Lookup(base, [lang] + rel) == Lookup(base, [ref] + rel)
    {
      LookupAppend(base, [lang], rel);
      LookupAppend(base, [ref], rel);
    }
    MatchingLanguageClean(base, ref, parse, lang);
  }

  /** A working directory whose only visible folders are allowed languages,
      each language folder an exact copy of "en", and whose .json files below
      "en" all parse as objects, passes. */
  lemma MirrorPasses(cwd: seq<Entry>, parse: string -> Json)
    requires WellFormed(Dir(cwd))
    requires forall i :: 0 <= i < |cwd| && cwd[i].node.Dir? && !IsHidden(cwd[i].name) ==>
      cwd[i].name in AllowedLanguages
    requires forall lang :: lang in AllowedLanguages && LanguageRoot(Dir(cwd), lang).Some? ==>
      LanguageRoot(Dir(cwd), lang) == LanguageRoot(Dir(cwd), ReferenceLanguage)
    requires forall rel :: IsReferenceJson(Dir(cwd), ReferenceLanguage, rel) ==>
      parse(Lookup(Dir(cwd), [ReferenceLanguage] + rel).value.content).Object?
    ensures ValidationVerdict(cwd, parse) == Pass
  {
    AllowedNamesClean(cwd);
    CopiesHaveSameStructure(Dir(cwd), ReferenceLanguage);
    CopiesHaveSameJson(Dir(cwd), ReferenceLanguage, parse);
  }
}
