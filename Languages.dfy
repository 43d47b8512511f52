/** The closed set of language folder names the script accepts. */
module Languages {
  import opened FileTree

  const AllowedLanguages: set<string> := {
    "ar", "bg", "zh-cn", "zh-tw", "cs", "da", "nl", "en", "fi", "fr",
    "de", "el", "hu", "it", "ja", "ko", "no", "en-pt", "pl", "pt",
    "pt-br", "ro", "ru", "es", "es-419", "sv", "th", "tr", "uk", "vn"
  }

  /** The language every other one is compared against (the default of
      `reference_lang`). */
  const ReferenceLanguage: string := "en"

  /** A dictionary keyed by language, as the checks build it: for each
      language in `langs`, its entry if it has one. */
  function Entries(langs: set<string>, entry: string -> Option<string>): map<string, string>
  {
    map lang | lang in langs && entry(lang).Some? :: entry(lang).value
  }

  /** Handling one more language adds its entry, if it has one. */
  lemma EntriesStep(langs: set<string>, lang: string, entry: string -> Option<string>)
    ensures Entries(langs + {lang}, entry) ==
      match entry(lang)
      case Some(m) => Entries(langs, entry)[lang := m]
      case None => Entries(langs, entry)
  {
    var before, after := Entries(langs, entry), Entries(langs + {lang}, entry);
    if entry(lang).Some? {
      assert after.Keys == before.Keys + {lang};
    } else {
      assert after.Keys == before.Keys;
    }
  }
}
