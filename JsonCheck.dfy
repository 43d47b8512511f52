/** validate_json_structure: every .json file of the reference language must
    exist in each other existing language folder, parse, and have the same
    top-level keys. */
module JsonCheck {
  import opened FileTree
  import opened Languages
  import opened StructureCheck

  /** What json.load makes of a file's text, as far as the check looks:
      an object with its top-level member names, any other JSON value, or a
      JSONDecodeError. Parsing itself is a parameter of the model. */
  datatype Json = Object(keys: set<string>) | NonObject | Malformed

  /** The exceptions the check does not catch, each of which ends the run:
      opening a directory (IsADirectoryError) and `.keys()` on a value that is
      not an object (AttributeError). */
  datatype Crash = IsADirectory | NotAnObject

  /** The outcome of the inner loop body for one reference file. */
  datatype FileCheck = Consistent | Flagged(message: string) | Crashed(error: Crash)

  /** The issues dictionary, or an exception that escaped it. */
  datatype JsonOutcome = Completed(issues: map<string, string>) | Aborted

  /** A relative path as os.path.join writes it. */
  function JoinPath(p: Path): string
  {
    if |p| == 0 then "" else if |p| == 1 then p[0] else p[0] + "/" + JoinPath(p[1..])
  }

  function MissingFileMessage(rel: Path): string { "Missing JSON file: " + JoinPath(rel) }

  function InvalidJsonMessage(rel: Path): string { "Invalid JSON in " + JoinPath(rel) }

  function KeyMismatchMessage(rel: Path): string { "JSON structure mismatch in " + JoinPath(rel) }

  /** The three kinds of message never coincide, whatever the paths. */
  lemma MessagesDistinct(p: Path, q: Path)
    ensures MissingFileMessage(p) != InvalidJsonMessage(q)
    ensures MissingFileMessage(p) != KeyMismatchMessage(q)
    ensures InvalidJsonMessage(p) != KeyMismatchMessage(q)
  {
    assert MissingFileMessage(p)[0] == 'M';
    assert InvalidJsonMessage(q)[0] == InvalidJsonMessage(p)[0] == 'I';
    assert KeyMismatchMessage(q)[0] == 'J';
  }

  /** `f.endswith(".json")`. */
  predicate IsJsonName(f: string)
  {
    |f| >= 5 && f[|f| - 5..] == ".json"
  }

  /** The .json files among `files`, as paths below `dir`, in listing order. */
  function JsonFilesOf(dir: Path, files: seq<string>): seq<Path>
  {
    if files == [] then []
    else (if IsJsonName(files[0]) then [dir + [files[0]]] else []) + JsonFilesOf(dir, files[1..])
  }

  /** The keys of the reference_jsons comprehension, in the order it inserts them. */
  function JsonPaths(steps: seq<WalkStep>): seq<Path>
  {
    if steps == [] then []
    else JsonFilesOf(steps[0].path, steps[0].files) + JsonPaths(steps[1..])
  }

  /** The paths one directory contributes: its .json file names, each
      joined to the directory. */
  lemma {:induction false} JsonFilesOfMembers(dir: Path, files: seq<string>, p: Path)
    ensures p in JsonFilesOf(dir, files) <==>
      |p| > 0 && p[..|p| - 1] == dir && p[|p| - 1] in files && IsJsonName(p[|p| - 1])
  {
    if files != [] {
      JsonFilesOfMembers(dir, files[1..], p);
      var f := files[0];
      assert (dir + [f])[..|dir + [f]| - 1] == dir;
      if |p| > 0 && p[..|p| - 1] == dir && p[|p| - 1] == f {
        SplitLast(p);
      }
    }
  }

  /** The comprehension's keys are exactly the .json names the walk lists,
      each joined to the directory that lists it. */
  lemma {:induction false} JsonPathsMembers(steps: seq<WalkStep>, p: Path)
    ensures p in JsonPaths(steps) <==>
      exists i :: (0 <= i < |steps| && |p| > 0 && p[..|p| - 1] == steps[i].path
        && p[|p| - 1] in steps[i].files && IsJsonName(p[|p| - 1]))
  {
    if steps != [] {
      JsonPathsMembers(steps[1..], p);
      JsonFilesOfMembers(steps[0].path, steps[0].files, p);
      assert forall i :: 0 < i < |steps| ==> steps[i] == steps[1..][i - 1];
    }
  }

  /** A .json regular file at `rel` below the reference folder. */
  predicate IsReferenceJson(base: Node, ref: string, rel: Path)
  {
    |rel| > 0 && IsJsonName(rel[|rel| - 1]) && IsFileAt(base, [ref] + rel)
  }

  /** reference_jsons: the .json files anywhere below the reference folder,
      hidden directories included (this walk does not prune), keyed by their
      path relative to it. A missing reference folder has none. */
  function ReferenceJsons(base: Node, ref: string): seq<Path>
  {
    JsonPaths(OsWalk(LanguageRoot(base, ref), false))
  }

  /** Every key of reference_jsons is a .json regular file below the
      reference folder. */
  lemma ReferenceJsonsSound(base: Node, ref: string, rel: Path)
    requires WellFormed(base) && rel in ReferenceJsons(base, ref)
    ensures IsReferenceJson(base, ref, rel)
  {
    var steps := OsWalk(LanguageRoot(base, ref), false);
    JsonPathsMembers(steps, rel);
    var i :| 0 <= i < |steps| && |rel| > 0 && rel[..|rel| - 1] == steps[i].path
      && rel[|rel| - 1] in steps[i].files && IsJsonName(rel[|rel| - 1]);
    SplitLast(rel);
    StepFileIsReference(base, ref, steps[i], rel[|rel| - 1]);
  }

  /** A .json name listed by a step of the reference walk is a regular file
      at that place. */
  lemma StepFileIsReference(base: Node, ref: string, s: WalkStep, f: string)
    requires WellFormed(base) && LanguageRoot(base, ref).Some?
    requires s in Walk(LanguageRoot(base, ref).value, [], false)
    requires f in s.files && IsJsonName(f)
    ensures IsReferenceJson(base, ref, s.path + [f])
  {
    var root := LanguageRoot(base, ref).value;
    ChildWellFormed(base, ref);
    WalkSound(root, [], false, s);
    assert s.path[0..] == s.path;
    var d := Lookup(root, s.path).value;
    LookupWellFormed(root, s.path);
    FindFile(d.entries, f);
    LookupChild(d, f);
    LookupAppend(root, s.path, [f]);
    LookupAppend(base, [ref], s.path + [f]);
  }

  /** Every .json regular file below the reference folder is listed. */
  lemma ReferenceJsonsComplete(base: Node, ref: string, rel: Path)
    requires WellFormed(base) && IsReferenceJson(base, ref, rel)
    ensures rel in ReferenceJsons(base, ref)
  {
    LookupAppend(base, [ref], rel);
    var root := LanguageRoot(base, ref).value;
    var dir, f := rel[..|rel| - 1], rel[|rel| - 1];
    SplitLast(rel);
    LookupAppend(root, dir, [f]);
    var d := Lookup(root, dir).value;
    LookupChild(d, f);
    ChildWellFormed(base, ref);
    LookupWellFormed(root, dir);
    FindFile(d.entries, f);
    WalkComplete(root, [], false, dir);
    var steps := Walk(root, [], false);
    assert [] + dir == dir;
    var i :| 0 <= i < |steps| && steps[i] == WalkStep(dir, FilesAt(root, dir));
    JsonPathsMembers(steps, rel);
  }

  /** A directory listing without repeats yields each .json path once. */
  lemma {:induction false} JsonFilesOfDistinct(dir: Path, files: seq<string>)
    requires Distinct(files)
    ensures Distinct(JsonFilesOf(dir, files))
  {
    if files != [] {
      var f := files[0];
      var head := if IsJsonName(f) then [dir + [f]] else [];
      JsonFilesOfDistinct(dir, files[1..]);
      forall p | p in head ensures p !in JsonFilesOf(dir, files[1..]) {
        JsonFilesOfMembers(dir, files[1..], p);
        assert p[|p| - 1] == f;
      }
      DistinctConcat(head, JsonFilesOf(dir, files[1..]));
    }
  }

  /** A walk that visits each directory once, each listing its files once,
      yields each .json path once. */
  lemma {:induction false} JsonPathsDistinct(steps: seq<WalkStep>)
    requires DistinctPaths(steps)
    requires forall i :: 0 <= i < |steps| ==> Distinct(steps[i].files)
    ensures Distinct(JsonPaths(steps))
  {
    if steps != [] {
      var head := JsonFilesOf(steps[0].path, steps[0].files);
      var rest := JsonPaths(steps[1..]);
      JsonFilesOfDistinct(steps[0].path, steps[0].files);
      JsonPathsDistinct(steps[1..]);
      forall p | p in head ensures p !in rest {
        JsonFilesOfMembers(steps[0].path, steps[0].files, p);
        JsonPathsMembers(steps[1..], p);
      }
      DistinctConcat(head, rest);
    }
  }

  /** reference_jsons has no repeated key: the sequence of paths is a faithful
      stand-in for the dictionary's key set. */
  lemma ReferenceJsonsDistinct(base: Node, ref: string)
    requires WellFormed(base)
    ensures Distinct(ReferenceJsons(base, ref))
  {
    var steps := OsWalk(LanguageRoot(base, ref), false);
    if LanguageRoot(base, ref).Some? {
      var root := LanguageRoot(base, ref).value;
      ChildWellFormed(base, ref);
      WalkDistinct(root, [], false);
      forall i | 0 <= i < |steps| ensures Distinct(steps[i].files) {
        WalkSound(root, [], false, steps[i]);
        var p := steps[i].path[0..];
        LookupWellFormed(root, p);
        FileNamesDistinct(Lookup(root, p).value.entries);
      }
    }
    JsonPathsDistinct(steps);
  }

  /** The inner loop body for one reference file: the language's counterpart
      is missing, cannot be opened, fails to parse on either side, is not an
      object on either side, has other top-level keys, or is consistent. */
  function CheckJsonFile(refText: string, langFile: Option<Node>, rel: Path, parse: string -> Json): (c: FileCheck)
    ensures c == Consistent <==>
      langFile.Some? && langFile.value.File? && parse(refText).Object? && parse(langFile.value.content).Object?
      && parse(refText).keys == parse(langFile.value.content).keys
    ensures c.Flagged? ==> c.message in {MissingFileMessage(rel), InvalidJsonMessage(rel), KeyMismatchMessage(rel)}
    ensures c == Flagged(MissingFileMessage(rel)) <==> langFile.None?
    ensures c == Flagged(InvalidJsonMessage(rel)) <==>
      langFile.Some? && langFile.value.File? && (parse(refText).Malformed? || parse(langFile.value.content).Malformed?)
    ensures c == Flagged(KeyMismatchMessage(rel)) <==>
      langFile.Some? && langFile.value.File? && parse(refText).Object? && parse(langFile.value.content).Object?
      && parse(refText).keys != parse(langFile.value.content).keys
    ensures c == Crashed(IsADirectory) <==> langFile.Some? && langFile.value.Dir?
    ensures c == Crashed(NotAnObject) <==>
      langFile.Some? && langFile.value.File? && !parse(refText).Malformed? && !parse(langFile.value.content).Malformed?
      && (parse(refText).NonObject? || parse(langFile.value.content).NonObject?)
  {
    MessagesDistinct(rel, rel);
    match langFile
    case None => Flagged(MissingFileMessage(rel))
    case Some(Dir(_)) => Crashed(IsADirectory)
    case Some(File(text)) =>
      var refData := parse(refText);
      if refData.Malformed? then Flagged(InvalidJsonMessage(rel))
      else
        var langData := parse(text);
        if langData.Malformed? then Flagged(InvalidJsonMessage(rel))
        else if refData.NonObject? || langData.NonObject? then Crashed(NotAnObject)
        else if refData.keys != langData.keys then Flagged(KeyMismatchMessage(rel))
        else Consistent
  }

  /** The message left by a sequence of overwrites: that of the last flagged file. */
  function LastIssue(checks: seq<FileCheck>): Option<string>
  {
    if checks == [] then None
    else match checks[|checks| - 1]
      case Flagged(m) => Some(m)
      case _ => LastIssue(checks[..|checks| - 1])
  }

  predicate AnyCrash(checks: seq<FileCheck>)
  {
    exists i :: 0 <= i < |checks| && checks[i].Crashed?
  }

  /** A language the loop looks at: not the reference, and its folder exists. */
  predicate Checked(base: Node, ref: string, lang: string)
  {
    lang != ref && LanguageRoot(base, lang).Some?
  }

  /** The text of the reference file at `rel` below the reference folder. The
      reference walk lists regular files only, so the empty fallback is never
      the one read. */
  function ReferenceText(base: Node, ref: string, rel: Path): string
  {
    match Lookup(base, [ref] + rel)
    case Some(File(text)) => text
    case _ => ""
  }

  /** The inner loop body for the reference file `rel` and one language. */
  function FileCheckAt(base: Node, ref: string, lang: string, rel: Path, parse: string -> Json): FileCheck
  {
    CheckJsonFile(ReferenceText(base, ref, rel), Lookup(base, [lang] + rel), rel, parse)
  }

  /** What the inner loop body gives, file by file, for the files `rels`. */
  function FileChecks(base: Node, ref: string, lang: string, rels: seq<Path>, parse: string -> Json): (checks: seq<FileCheck>)
    ensures |checks| == |rels|
  {
    seq(|rels|, i requires 0 <= i < |rels| => FileCheckAt(base, ref, lang, rels[i], parse))
  }

  /** The checks of one language against every reference file. */
  function LangChecks(base: Node, ref: string, lang: string, parse: string -> Json): seq<FileCheck>
  {
    FileChecks(base, ref, lang, ReferenceJsons(base, ref), parse)
  }

  /** The entry one language leaves in the dictionary, if any. */
  function LangIssue(base: Node, ref: string, lang: string, parse: string -> Json): Option<string>
  {
    if Checked(base, ref, lang) then LastIssue(LangChecks(base, ref, lang, parse)) else None
  }

  /** Whether one language's files raise an exception. */
  predicate LangCrashes(base: Node, ref: string, lang: string, parse: string -> Json)
  {
    Checked(base, ref, lang) && AnyCrash(LangChecks(base, ref, lang, parse))
  }

  /** Each language's entry, as a function of the language. */
  function LangIssues(base: Node, ref: string, parse: string -> Json): string -> Option<string>
  {
    lang => LangIssue(base, ref, lang, parse)
  }

  function IssuesAmong(base: Node, ref: string, langs: set<string>, parse: string -> Json): map<string, string>
  {
    Entries(langs, LangIssues(base, ref, parse))
  }

  predicate NoCrashAmong(base: Node, ref: string, langs: set<string>, parse: string -> Json)
  {
    forall lang :: lang in langs ==> !LangCrashes(base, ref, lang, parse)
  }

  /** What validate_json_structure returns, or that it raised. */
  function JsonIssues(base: Node, ref: string, parse: string -> Json): JsonOutcome
  {
    if NoCrashAmong(base, ref, AllowedLanguages, parse) then Completed(IssuesAmong(base, ref, AllowedLanguages, parse))
    else Aborted
  }

  /** validate_json_structure: for each allowed language in set order, each
      reference file in insertion order; a later issue for a language
      overwrites an earlier one, and an uncaught exception ends the run. */
  method ValidateJsonStructure(base: Node, ref: string, parse: string -> Json) returns (outcome: JsonOutcome)
    ensures outcome == JsonIssues(base, ref, parse)
  {
    var refs := ReferenceJsons(base, ref);
    var issues: map<string, string> := map[];
    var pending := AllowedLanguages;
    ghost var done: set<string> := {};
    while pending != {}
      invariant pending + done == AllowedLanguages && pending !! done
      invariant NoCrashAmong(base, ref, done, parse)
      invariant issues == IssuesAmong(base, ref, done, parse)
      decreases pending
    {
      var lang :| lang in pending;
      if lang != ref && LanguageRoot(base, lang).Some? {
        var crashed;
        issues, crashed := CheckLanguage(base, ref, lang, refs, parse, issues);
        LanguageChecked(base, ref, lang, parse);
        if crashed {
          CrashAborts(base, ref, lang, parse);
          return Aborted;
        }
      }
      RecordIssue(base, ref, done, lang, parse);
      RecordNoCrash(base, ref, done, lang, parse);
      pending := pending - {lang};
      done := done + {lang};
    }
    assert done == AllowedLanguages;
    outcome := Completed(issues);
  }

  /** The inner loop for one language: each reference file in turn, each issue
      overwriting the language's entry; stops at an uncaught exception. */
  method CheckLanguage(base: Node, ref: string, lang: string, refs: seq<Path>, parse: string -> Json,
                       issues0: map<string, string>)
    returns (issues: map<string, string>, crashed: bool)
    requires lang !in issues0
    ensures crashed == AnyCrash(FileChecks(base, ref, lang, refs, parse))
    ensures !crashed ==> issues == match LastIssue(FileChecks(base, ref, lang, refs, parse))
      case Some(m) => issues0[lang := m]
      case None => issues0
  {
    ghost var checks := FileChecks(base, ref, lang, refs, parse);
    issues := issues0;
    for i := 0 to |refs|
      invariant !AnyCrash(checks[..i])
      invariant issues - {lang} == issues0
      invariant lang in issues <==> LastIssue(checks[..i]).Some?
      invariant lang in issues ==> issues[lang] == LastIssue(checks[..i]).value
    {
      var check := CheckJsonFile(ReferenceText(base, ref, refs[i]), Lookup(base, [lang] + refs[i]), refs[i], parse);
      assert check == checks[i];
      FoldStep(checks, i);
      match check
      case Consistent =>
      case Flagged(message) =>
        issues := issues[lang := message];
      case Crashed(_) =>
        return issues, true;
    }
    assert checks[..|refs|] == checks;
    crashed := false;
    RestoreEntry(issues, lang, issues0, LastIssue(checks));
  }

  /** One more file: the last message and the crash flag of the longer prefix. */
  lemma FoldStep(checks: seq<FileCheck>, i: int)
    requires 0 <= i < |checks|
    ensures LastIssue(checks[..i + 1]) == if checks[i].Flagged? then Some(checks[i].message) else LastIssue(checks[..i])
    ensures AnyCrash(checks[..i + 1]) <==> AnyCrash(checks[..i]) || checks[i].Crashed?
  {
    assert checks[..i + 1][..i] == checks[..i];
    assert forall k :: 0 <= k < i ==> checks[..i + 1][k] == checks[..i][k];
  }

  lemma RestoreEntry(m: map<string, string>, k: string, rest: map<string, string>, entry: Option<string>)
    requires m - {k} == rest && k !in rest
    requires k in m <==> entry.Some?
    requires k in m ==> m[k] == entry.value
    ensures m == if entry.Some? then rest[k := entry.value] else rest
  {
    if entry.Some? {
      assert m.Keys == rest.Keys + {k};
    } else {
      assert m.Keys == rest.Keys;
    }
  }

  /** Finishing one more language adds its entry, if it has one. */
  lemma RecordIssue(base: Node, ref: string, done: set<string>, lang: string, parse: string -> Json)
    ensures IssuesAmong(base, ref, done + {lang}, parse) ==
      match LangIssue(base, ref, lang, parse)
      case Some(m) => IssuesAmong(base, ref, done, parse)[lang := m]
      case None => IssuesAmong(base, ref, done, parse)
  {
    EntriesStep(done, lang, LangIssues(base, ref, parse));
  }

  /** For a checked language, the inner loop over the reference files computes
      its entry and whether it raises. */
  lemma LanguageChecked(base: Node, ref: string, lang: string, parse: string -> Json)
    requires Checked(base, ref, lang)
    ensures LangCrashes(base, ref, lang, parse) == AnyCrash(FileChecks(base, ref, lang, ReferenceJsons(base, ref), parse))
    ensures LangIssue(base, ref, lang, parse) == LastIssue(FileChecks(base, ref, lang, ReferenceJsons(base, ref), parse))
  {
  }

  /** An exception raised for one allowed language ends the whole run. */
  lemma CrashAborts(base: Node, ref: string, lang: string, parse: string -> Json)
    requires lang in AllowedLanguages && LangCrashes(base, ref, lang, parse)
    ensures JsonIssues(base, ref, parse) == Aborted
  {
  }

  /** Finishing one more language keeps the run free of exceptions exactly
      when that language's files raised none. */
  lemma RecordNoCrash(base: Node, ref: string, done: set<string>, lang: string, parse: string -> Json)
    ensures NoCrashAmong(base, ref, done + {lang}, parse) <==>
      NoCrashAmong(base, ref, done, parse) && !LangCrashes(base, ref, lang, parse)
  {
  }

  /** A run of overwrites leaves no entry exactly when no file was flagged. */
  lemma {:induction false} LastIssueNone(checks: seq<FileCheck>)
    ensures LastIssue(checks).None? <==> forall i :: 0 <= i < |checks| ==> !checks[i].Flagged?
  {
    if checks != [] {
      var n := |checks| - 1;
      LastIssueNone(checks[..n]);
      assert forall i :: 0 <= i < n ==> checks[..n][i] == checks[i];
    }
  }

  /** The entry a run of overwrites leaves is the message of the last flagged
      file. */
  lemma {:induction false} LastIssueIsLastFlagged(checks: seq<FileCheck>)
    requires LastIssue(checks).Some?
    ensures exists j :: (0 <= j < |checks| && checks[j] == Flagged(LastIssue(checks).value)
      && forall k :: j < k < |checks| ==> !checks[k].Flagged?)
  {
    var n := |checks| - 1;
    if checks[n].Flagged? {
      assert checks[n] == Flagged(LastIssue(checks).value);
    } else {
      var init := checks[..n];
      assert LastIssue(checks) == LastIssue(init);
      LastIssueIsLastFlagged(init);
      var j :| 0 <= j < n && init[j] == Flagged(LastIssue(init).value)
        && forall k :: j < k < n ==> !init[k].Flagged?;
      forall k | j < k < |checks| ensures !checks[k].Flagged? {
        if k < n {
          assert checks[k] == init[k];
        }
      }
      assert checks[j] == init[j];
    }
  }

  /** The i-th check of a language is that of the i-th reference file. */
  lemma LangCheckAt(base: Node, ref: string, lang: string, parse: string -> Json, i: int)
    requires 0 <= i < |ReferenceJsons(base, ref)|
    ensures LangChecks(base, ref, lang, parse)[i] == FileCheckAt(base, ref, lang, ReferenceJsons(base, ref)[i], parse)
  {
  }

  /** The check of a reference file reads that file's own text. */
  lemma ReferenceTextRead(base: Node, ref: string, lang: string, rel: Path, parse: string -> Json)
    requires IsFileAt(base, [ref] + rel)
    ensures FileCheckAt(base, ref, lang, rel, parse) ==
      CheckJsonFile(Lookup(base, [ref] + rel).value.content, Lookup(base, [lang] + rel), rel, parse)
  {
    assert ReferenceText(base, ref, rel) == Lookup(base, [ref] + rel).value.content;
  }

  /** Every reference file is checked for each language, with the reference
      file's own text against the counterpart at the same relative path below
      the language folder. */
  lemma ReferenceCheck(base: Node, ref: string, lang: string, rel: Path, parse: string -> Json)
    requires WellFormed(base) && IsReferenceJson(base, ref, rel)
    ensures FileCheckAt(base, ref, lang, rel, parse) in LangChecks(base, ref, lang, parse)
    ensures FileCheckAt(base, ref, lang, rel, parse) ==
      CheckJsonFile(Lookup(base, [ref] + rel).value.content, Lookup(base, [lang] + rel), rel, parse)
  {
    ReferenceJsonsComplete(base, ref, rel);
    var refs := ReferenceJsons(base, ref);
    var i :| 0 <= i < |refs| && refs[i] == rel;
    LangCheckAt(base, ref, lang, parse, i);
    ReferenceTextRead(base, ref, lang, rel, parse);
  }

  /** Which languages validate_json_structure reports, when it returns: only
      allowed languages other than the reference whose folder exists, exactly
      those for which some reference file was flagged, each with one of the
      three messages about one of the reference files. */
  lemma JsonIssuesSpec(base: Node, ref: string, parse: string -> Json, lang: string)
    requires WellFormed(base) && JsonIssues(base, ref, parse).Completed?
    ensures var issues := JsonIssues(base, ref, parse).issues;
      lang in issues <==>
        lang in AllowedLanguages && Checked(base, ref, lang)
        && exists i :: 0 <= i < |ReferenceJsons(base, ref)| && LangChecks(base, ref, lang, parse)[i].Flagged?
    ensures var issues := JsonIssues(base, ref, parse).issues;
      lang in issues ==> exists rel :: (IsReferenceJson(base, ref, rel) &&
        issues[lang] in {MissingFileMessage(rel), InvalidJsonMessage(rel), KeyMismatchMessage(rel)})
  {
    var checks := LangChecks(base, ref, lang, parse);
    LastIssueNone(checks);
    if lang in JsonIssues(base, ref, parse).issues {
      LastIssueIsLastFlagged(checks);
      var j :| 0 <= j < |checks| && checks[j] == Flagged(LastIssue(checks).value)
        && forall k :: j < k < |checks| ==> !checks[k].Flagged?;
      var rel := ReferenceJsons(base, ref)[j];
      assert checks[j] == FileCheckAt(base, ref, lang, rel, parse);
      ReferenceJsonsSound(base, ref, rel);
    }
  }

  /** A reference file with no counterpart in a checked language gets that
      language reported. */
  lemma MissingCounterpartReported(base: Node, ref: string, parse: string -> Json, lang: string, rel: Path)
    requires WellFormed(base) && JsonIssues(base, ref, parse).Completed?
    requires lang in AllowedLanguages && Checked(base, ref, lang)
    requires IsReferenceJson(base, ref, rel) && Lookup(base, [lang] + rel).None?
    ensures lang in JsonIssues(base, ref, parse).issues
  {
    ReferenceCheck(base, ref, lang, rel, parse);
    JsonIssuesSpec(base, ref, parse, lang);
  }

  /** A counterpart that is a directory makes opening it raise, and the run
      ends with that exception. */
  lemma DirectoryCounterpartAborts(base: Node, ref: string, parse: string -> Json, lang: string, rel: Path)
    requires WellFormed(base) && lang in AllowedLanguages && Checked(base, ref, lang)
    requires IsReferenceJson(base, ref, rel)
    requires Lookup(base, [lang] + rel).Some? && Lookup(base, [lang] + rel).value.Dir?
    ensures JsonIssues(base, ref, parse) == Aborted
  {
    ReferenceCheck(base, ref, lang, rel, parse);
    assert LangCrashes(base, ref, lang, parse);
  }

  /** Two files that both parse, one of them to something other than an
      object, make `.keys()` raise, and the run ends with that exception. */
  lemma NonObjectAborts(base: Node, ref: string, parse: string -> Json, lang: string, rel: Path)
    requires WellFormed(base) && lang in AllowedLanguages && Checked(base, ref, lang)
    requires IsReferenceJson(base, ref, rel)
    requires Lookup(base, [lang] + rel).Some? && Lookup(base, [lang] + rel).value.File?
    requires var r, l := parse(Lookup(base, [ref] + rel).value.content), parse(Lookup(base, [lang] + rel).value.content);
      !r.Malformed? && !l.Malformed? && (r.NonObject? || l.NonObject?)
    ensures JsonIssues(base, ref, parse) == Aborted
  {
    ReferenceCheck(base, ref, lang, rel, parse);
    assert LangCrashes(base, ref, lang, parse);
  }

  /** When the run completes without reporting a checked language, every
      reference file passed its check against that language. */
  lemma UnreportedConsistent(base: Node, ref: string, parse: string -> Json, lang: string, rel: Path)
    requires WellFormed(base) && JsonIssues(base, ref, parse).Completed?
    requires lang in AllowedLanguages && Checked(base, ref, lang) && lang !in JsonIssues(base, ref, parse).issues
    requires IsReferenceJson(base, ref, rel)
    ensures FileCheckAt(base, ref, lang, rel, parse) == Consistent
  {
    var checks := LangChecks(base, ref, lang, parse);
    ReferenceCheck(base, ref, lang, rel, parse);
    var i :| 0 <= i < |checks| && checks[i] == FileCheckAt(base, ref, lang, rel, parse);
    assert !LangCrashes(base, ref, lang, parse);
    JsonIssuesSpec(base, ref, parse, lang);
  }

  /** A counterpart that is a file with the same top-level keys as the
      reference file passes its check. */
  lemma MatchingFileConsistent(base: Node, ref: string, parse: string -> Json, lang: string, rel: Path)
    requires IsReferenceJson(base, ref, rel) && IsFileAt(base, [lang] + rel)
    requires parse(Lookup(base, [ref] + rel).value.content).Object?
    requires parse(Lookup(base, [lang] + rel).value.content) == parse(Lookup(base, [ref] + rel).value.content)
    ensures FileCheckAt(base, ref, lang, rel, parse) == Consistent
  {
  }

  /** A language whose every counterpart is a file with the same top-level
      keys as the reference file is neither reported nor a cause of an
      exception. */
  lemma MatchingLanguageClean(base: Node, ref: string, parse: string -> Json, lang: string)
    requires WellFormed(base)
    requires forall rel :: IsReferenceJson(base, ref, rel) ==>
      IsFileAt(base, [lang] + rel) && parse(Lookup(base, [ref] + rel).value.content).Object?
      && parse(Lookup(base, [lang] + rel).value.content) == parse(Lookup(base, [ref] + rel).value.content)
    ensures !LangCrashes(base, ref, lang, parse)
    ensures LangIssue(base, ref, lang, parse).None?
  {
    var refs := ReferenceJsons(base, ref);
    var checks := LangChecks(base, ref, lang, parse);
    forall i | 0 <= i < |checks| ensures checks[i] == Consistent {
      assert refs[i] in refs;
      ReferenceJsonsSound(base, ref, refs[i]);
      MatchingFileConsistent(base, ref, parse, lang, refs[i]);
    }
    LastIssueNone(checks);
  }

  /** Without a reference folder there is nothing to compare: no issues and
      no exception. */
  lemma NoReferenceNoJsonIssues(base: Node, ref: string, parse: string -> Json)
    requires WellFormed(base) && LanguageRoot(base, ref).None?
    ensures JsonIssues(base, ref, parse) == Completed(map[])
  {
    assert ReferenceJsons(base, ref) == [];
    forall lang ensures LangChecks(base, ref, lang, parse) == [] {
    }
    assert IssuesAmong(base, ref, AllowedLanguages, parse) == map[];
  }
}
