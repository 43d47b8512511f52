# Translation-folder validator, modelled in Dafny

`validate.py` checks a directory of translations. The directory holds one
folder per language code, and "en" is the reference. The script runs three
checks in order and exits with status 1 at the first one that finds
something:

1. **Folder names.** Every visible folder of the working directory must be
   one of the 30 allowed language codes.
2. **Folder structure.** Every other allowed language that exists must have
   the same folder structure as "en". The folder structure maps each visible
   directory to the sorted names of its files.
3. **JSON files.** Every `.json` file below "en" must exist in each such
   language. Both files must parse, and their top-level keys must be equal.

If all three are clean, the script prints "Validation passed!" and exits 0.

The model is in eight modules:

- `FileTree` is the file system as a value:
  - A `Node` is a file with its text or a directory with an ordered listing.
  - Paths are sequences of names.
  - `Walk` models `os.walk` in its top-down order.
- `Sorting` models Python's `sorted` on strings: code-point lexicographic
  order, and an insertion sort proved sorted and a permutation.
- `Languages` holds `ALLOWED_LANGUAGES` and the reference language.
- `FolderTree` models `get_folder_structure`: a loop over the walk, proved
  against a fold.
- `FolderNames` models `check_folder_names`.
- `StructureCheck` models `compare_structure`: a loop over the language set,
  proved against a map comprehension.
- `JsonCheck` models `validate_json_structure`:
  - The nested loops are proved against a specification.
  - The uncaught exceptions are explicit outcomes.
- `Validate` models `main`.

Python iterates a set in an order it does not specify. The loops over
`ALLOWED_LANGUAGES` therefore pick any pending language, and each result is
proved independent of that order.

## Model

| member | source | states |
|---|---|---|
| FileTree.Find | validate.py:35 | an entry of the listing is found exactly when some entry has that name |
| FileTree.FileNames | validate.py:11 | the file names of a directory listing are exactly the names of its regular-file entries |
| FileTree.LookupAppend | validate.py:63 | joining two relative paths and looking up the result is looking up one and then the other below it (`os.path.join(lang_path, rel_path)`) |
| FileTree.LookupWellFormed | validate.py:8 | every subtree of a tree without duplicate names is again without duplicate names |
| FileTree.FindFile | validate.py:52 | a name is among a directory's files exactly when looking it up finds a regular file |
| FileTree.WalkSound | validate.py:11 | every step of `os.walk` is a directory below the top, lists exactly that directory's files, and, when hidden names are pruned, is reached through visible names only |
| FileTree.WalkComplete | validate.py:11-12 | every directory below the top (reached through visible names when pruning) is visited with its files |
| FileTree.FileNamesDistinct | validate.py:11 | a directory without repeated names lists each file name once |
| FileTree.WalkDistinct | validate.py:11 | `os.walk` never yields the same directory twice |
| FileTree.WalkEntriesDistinct | validate.py:11 | the walks below the entries of one listing never yield the same directory twice |
| Sorting.Insert | validate.py:14 | inserting into a sorted list keeps it sorted and adds exactly that element |
| Sorting.Sort | validate.py:14 | `sorted` returns an ordered list |
| Sorting.SortPermutes | validate.py:14 | `sorted` returns a permutation of its input |
| Sorting.SortedUnique | validate.py:14 | two sorted lists with the same elements are equal |
| Sorting.SortIgnoresOrder | validate.py:14 | sorting two listings of the same names in any order gives the same list |
| Sorting.StrLeTotal | validate.py:14 | string comparison is total |
| Sorting.StrLeTransitive | validate.py:14 | string comparison is transitive |
| Sorting.StrLeAntisymmetric | validate.py:14 | string comparison is antisymmetric |
| FolderTree.GetFolderStructure | validate.py:8-15 | the walk loop builds exactly the folder structure of the root, and a missing root gives the empty map |
| FolderTree.StructureOfKeys | validate.py:11-14 | the dictionary's keys are exactly the directories the walk visits |
| FolderTree.FolderStructureSpec | validate.py:8-15 | a path is a key exactly when it is a directory reached through visible names only ("." included), and its value is that directory's file names, sorted, hidden files included |
| FolderTree.NoDirectoryNoStructure | validate.py:11 | a missing root, or a root that is a regular file, has the empty structure |
| FolderTree.FolderStructureEqual | validate.py:40 | two structures are equal exactly when the same visible directories exist in both and each holds the same file names in any order |
| FolderNames.CheckFolderNames | validate.py:18-22 | every reported name is outside the allowed set, and there are no more of them than entries |
| FolderNames.CheckFolderNamesAppend | validate.py:20-21 | the report keeps listing order, and one entry contributes its name exactly when it is a visible directory with an unknown name |
| FolderNames.CheckFolderNamesMembers | validate.py:18-22 | a name is reported exactly when a visible directory of that name has an unknown name |
| Languages.EntriesStep | validate.py:31-41 | handling one more language adds its entry, if it has one, to the dictionary and changes nothing else |
| StructureCheck.CompareStructure | validate.py:25-43 | the loop over the language set, in any order, builds exactly the map of languages whose existing folder has a different structure |
| StructureCheck.StructureIssuesSpec | validate.py:31-41 | only allowed languages other than the reference are reported, never a missing one, an existing one exactly when its structure differs, always with "Folder structure mismatch" |
| StructureCheck.MismatchMeansTreesDiffer | validate.py:39-41 | an existing language is reported exactly when some visible directory is in one tree only, or holds different file names in the two |
| StructureCheck.MissingReferenceFlagsAll | validate.py:27-41 | with "en" missing, every other language folder that is a directory is reported |
| JsonCheck.MessagesDistinct | validate.py:65-74 | the missing-file, invalid-JSON and key-mismatch messages never coincide |
| JsonCheck.JsonFilesOfMembers | validate.py:52 | a path comes from a directory exactly when it is that directory joined to one of its file names ending in `.json` |
| JsonCheck.JsonPathsMembers | validate.py:49-53 | the comprehension's keys are exactly the `.json` names the walk lists, each joined to its directory |
| JsonCheck.ReferenceJsonsSound | validate.py:49-53 | every key of `reference_jsons` is a `.json` regular file below the reference folder |
| JsonCheck.ReferenceJsonsComplete | validate.py:49-53 | every `.json` regular file below the reference folder is a key, hidden directories included |
| JsonCheck.JsonFilesOfDistinct | validate.py:52 | one directory contributes each `.json` path once |
| JsonCheck.JsonPathsDistinct | validate.py:49-53 | a walk that visits each directory once yields each `.json` path once |
| JsonCheck.ReferenceJsonsDistinct | validate.py:49-53 | `reference_jsons` never receives the same key twice, so its keys in insertion order have no repeats |
| JsonCheck.CheckJsonFile | validate.py:63-74 | one file is consistent exactly when the counterpart is a file, both parse as objects and the keys are equal; "Missing" exactly when the counterpart does not exist; "Invalid" exactly when it exists as a file and either side fails to parse; "JSON structure mismatch" exactly when both parse as objects with different keys; IsADirectoryError exactly when the counterpart is a directory; AttributeError exactly when both parse and one is not an object |
| JsonCheck.ValidateJsonStructure | validate.py:46-75 | the nested loops, in any language order, return exactly the specified issues, or end with the exception one of the files raises |
| JsonCheck.CheckLanguage | validate.py:62-74 | the loop over reference files raises exactly when some file raises, and otherwise leaves the message of the last flagged file |
| JsonCheck.LastIssueNone | validate.py:62-74 | after the overwrites, a language has no entry exactly when no file was flagged |
| JsonCheck.LastIssueIsLastFlagged | validate.py:62-74 | the entry a language keeps is the message of its last flagged file |
| JsonCheck.RecordIssue | validate.py:56-74 | finishing a language adds its entry, if it has one, to the other languages' entries |
| JsonCheck.ReferenceCheck | validate.py:62-63 | each reference file is checked against the counterpart at the same relative path below the language folder |
| JsonCheck.JsonIssuesSpec | validate.py:56-75 | a language is reported exactly when it is allowed, is not the reference, exists, and has some flagged file; its message names one of the reference files |
| JsonCheck.MissingCounterpartReported | validate.py:64-65 | a reference file with no counterpart gets the language reported |
| JsonCheck.DirectoryCounterpartAborts | validate.py:68 | a counterpart that is a directory makes `open` raise, which ends the run |
| JsonCheck.NonObjectAborts | validate.py:69-71 | two files that parse, one to something other than an object, make `.keys()` raise, which ends the run |
| JsonCheck.UnreportedConsistent | validate.py:56-75 | when the run completes without reporting a checked language, each reference file passed its check for that language |
| JsonCheck.MatchingLanguageClean | validate.py:62-74 | a language whose counterparts all parse to objects with the reference's keys is neither reported nor raises |
| JsonCheck.NoReferenceNoJsonIssues | validate.py:48-53 | without a reference folder there is nothing to compare: no issues |
| Validate.ExitStatus | validate.py:84-97 | the exit status is 0 exactly when validation passed, else 1 |
| Validate.Validate | validate.py:78-97 | the checks run in order and the first with findings decides; the status is 0 exactly when all three are clean |
| Validate.PassNamesAllowed | validate.py:81-84 | after a pass, every visible folder has an allowed name |
| Validate.PassStructures | validate.py:86-89 | after a pass, every other existing language has the structure of "en" |
| Validate.PassJsonFiles | validate.py:91-94 | after a pass, every `.json` file below "en" has a counterpart file in each other existing language, both are objects, and the keys agree |
| Validate.AllowedNamesClean | validate.py:81-82 | a directory whose visible folders all have allowed names passes the name check |
| Validate.CopiesHaveSameStructure | validate.py:86-87 | language folders that are copies of "en" give no structure issue |
| Validate.CopyIsClean | validate.py:91-92 | a language folder that copies "en", with object-valued `.json` files, leaves no JSON entry and raises nothing |
| Validate.CopiesHaveSameJson | validate.py:91-92 | language folders that all copy "en", with object-valued `.json` files, give no JSON issue |
| Validate.MirrorPasses | validate.py:78-97 | a directory with allowed names only, whose language folders all copy "en" and whose `.json` files are objects, passes |

## Behaviour worth knowing

The model follows the code in each of these cases:

- **Structure messages.** `compare_structure` compares whole dictionaries.
  It records one message per language, "Folder structure mismatch". It does
  not record a message per missing or extra file.
- **Missing JSON files.** A missing counterpart `.json` file is an issue that
  fails the run. It is not a warning.
- **Warning counts.** No warning counts are returned. A missing language
  folder only prints a warning, which is left out.
- **Hidden directories.** The walk that collects the reference `.json` files
  does not prune hidden directories (validate.py:51). Files below hidden
  directories of "en" are therefore checked.
- **Language entry that is a file.** An existing entry that is a regular file
  passes the `os.path.exists` test. Its folder structure is then empty. It
  is reported when "en" is a directory, because the "en" structure holds at
  least ".". When "en" is missing or is a regular file, both structures are
  empty and it is not reported. In the JSON check, each of its counterparts is "missing".
- **Uncaught exceptions.** Two exceptions escape `validate_json_structure`
  and end the run with status 1:
  - opening a counterpart that is a directory (IsADirectoryError);
  - `.keys()` on a parsed value that is not an object (AttributeError), when
    both files parse.

## Left out

- **Console output.** The printed warnings and messages are not modelled.
  `exit` is modelled as the verdict and its status.
- **`json.load` and UTF-8 decoding.** These are a parameter `parse`. It maps
  a file's text to an object with its top-level keys, another JSON value, or
  a decode error. A decoding failure that is not a `JSONDecodeError` is not
  modelled.
- **Operating-system errors.** Permission errors, races with other
  processes, symbolic links, and `os.walk` error callbacks are not modelled.
  The tree is a value that does not change during the run.
- **Names with separators.** File and folder names are single path
  components. Names never contain "/", and "." and ".." are never entries.
- **The working directory.** `os.getcwd()` is the parameter `cwd`, the
  listing of the directory the script runs in.
- **Set iteration order.** The order in which Python iterates
  `ALLOWED_LANGUAGES` is not modelled. Each loop picks any pending language,
  and its result is proved the same for every order.
- **Dictionary values of `reference_jsons`.** The model keeps only the keys,
  as a sequence in insertion order, and proves they have no repeats. The
  value of each key, the path of the file, is recomputed from its key when
  the file is read.
- **Repeated names in a directory.** A directory never lists the same name
  twice (`WellFormed`), as on any real file system; the lemmas about the
  walk, the folder structure and the JSON check assume it.
- **Case-insensitive or normalizing file systems.** Names are matched
  exactly, as on a case-sensitive file system that does not normalize
  names. Where `os.path.exists` would match `A.json` to `a.json`, the model
  reports the counterpart as missing.
