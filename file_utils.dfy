/**
 * The two file-name helpers: the editor language of a file name, looked
 * up from its lower-cased extension in a fixed table, and the extension
 * without its dot, falling back to `txt`.
 */
module FileUtils {
  import opened JsRuntime
  import opened NodePath

  /** The extension-to-language table, keyed by lower-case extensions with their dot. */
  const LanguageMap: map<string, string> := map[
    ".js" := "javascript",
    ".ts" := "typescript",
    ".jsx" := "javascriptreact",
    ".tsx" := "typescriptreact",
    ".py" := "python",
    ".java" := "java",
    ".cpp" := "cpp",
    ".c" := "c",
    ".cs" := "csharp",
    ".php" := "php",
    ".rb" := "ruby",
    ".go" := "go",
    ".rs" := "rust",
    ".html" := "html",
    ".css" := "css",
    ".scss" := "scss",
    ".sass" := "sass",
    ".less" := "less",
    ".json" := "json",
    ".xml" := "xml",
    ".yaml" := "yaml",
    ".yml" := "yaml",
    ".md" := "markdown",
    ".sql" := "sql",
    ".sh" := "shellscript",
    ".bat" := "bat",
    ".ps1" := "powershell",
    ".al" := "al"
  ]

  const DefaultLanguage: string := "plaintext"
  const DefaultExtension: string := "txt"

  /** The language for a file name; `plaintext` when its extension is not in the table. */
  function GetLanguageFromFilename(filename: string): (lang: string)
    ensures lang in LanguageMap.Values || lang == DefaultLanguage
  {
    var ext := ToLowerCase(Extname(filename));
    if ext in LanguageMap then LanguageMap[ext] else DefaultLanguage
  }

  /** The extension of a file name without its leading dot, or `txt` when it has none. */
  function GetFileExtension(filename: string): (ext: string)
    ensures ext != []
    ensures forall i :: 0 <= i < |ext| ==> ext[i] != '.' && ext[i] != '/'
  {
    ExtnameShape(filename);
    var e := Extname(filename);
    var tail := if |e| >= 1 then e[1..] else "";
    if tail == "" then DefaultExtension else tail
  }

  // ---------------------------------------------------------------------
  // Properties of GetFileExtension
  // ---------------------------------------------------------------------

  /**
   * The result is the real extension with its dot removed when there is one
   * (anything longer than a bare `.`), and `txt` exactly otherwise.
   */
  lemma FileExtensionIsExtnameWithoutDot(filename: string)
    ensures var e := Extname(filename);
      if |e| > 1 then "." + GetFileExtension(filename) == e
      else GetFileExtension(filename) == DefaultExtension
  {
    ExtnameShape(filename);
  }

  /** A file name whose base name has no dot (after its first character) gets `txt`. */
  lemma FileExtensionDefault(filename: string)
    requires forall i :: 0 < i < |LastSegment(filename)| ==> LastSegment(filename)[i] != '.'
    ensures GetFileExtension(filename) == DefaultExtension
  {
    ExtnameEmptyIff(filename);
  }

  // ---------------------------------------------------------------------
  // Properties of GetLanguageFromFilename
  // ---------------------------------------------------------------------

  /** Upper and lower case in a file name give the same language. */
  lemma LanguageIgnoresCase(filename: string)
    ensures GetLanguageFromFilename(ToLowerCase(filename)) == GetLanguageFromFilename(filename)
  {
    ExtnameCommutesWithLower(filename);
    ToLowerCaseIdempotent(Extname(filename));
  }

  /** No language in the table is `plaintext`. */
  lemma PlaintextNotInTable()
    ensures DefaultLanguage !in LanguageMap.Values
  {
    forall k | k in LanguageMap ensures LanguageMap[k] != DefaultLanguage {
    }
  }

  /**
   * The result is the table's entry for the lower-cased extension when there is
   * one, and `plaintext` exactly when there is none.
   */
  lemma LanguageIsTableLookup(filename: string)
    ensures var ext := ToLowerCase(Extname(filename));
      (ext in LanguageMap ==> GetLanguageFromFilename(filename) == LanguageMap[ext]) &&
      (GetLanguageFromFilename(filename) == DefaultLanguage <==> ext !in LanguageMap)
  {
    PlaintextNotInTable();
  }

  /** A file name without an extension is `plaintext`. */
  lemma NoExtensionIsPlaintext(filename: string)
    requires Extname(filename) == []
    ensures GetLanguageFromFilename(filename) == DefaultLanguage
  {
    assert ToLowerCase([]) == [];
  }

  /** `.yaml` and `.yml`, in any case, are both `yaml`. */
  lemma YamlAliases(filename: string)
    requires ToLowerCase(Extname(filename)) in {".yaml", ".yml"}
    ensures GetLanguageFromFilename(filename) == "yaml"
  {
  }

  /** A name `stem.x` without separators gets the language of `.x`, lower-cased. */
  lemma LanguageOfPlainName(stem: string, x: string)
    requires stem != [] && x != []
    requires forall i :: 0 <= i < |stem| ==> stem[i] != '/'
    requires forall i :: 0 <= i < |x| ==> x[i] != '/' && x[i] != '.'
    ensures var ext := ToLowerCase("." + x);
      GetLanguageFromFilename(stem + "." + x) == if ext in LanguageMap then LanguageMap[ext] else DefaultLanguage
  {
    ExtnameOfPlainName(stem, x);
  }

  /** A spelling of `ts` holds no separator or dot, and `.` before it lower-cases to `.ts`. */
  lemma SpellingOfTs(x: string)
    requires ToLowerCase(x) == "ts"
    ensures forall i :: 0 <= i < |x| ==> x[i] != '/' && x[i] != '.'
    ensures ToLowerCase("." + x) == ".ts"
  {
    var lx := ToLowerCase(x);
    forall i | 0 <= i < |x| ensures x[i] != '/' && x[i] != '.' {
      assert lx[i] == LowerChar(x[i]);
    }
    var le := ToLowerCase("." + x);
    assert le[0] == LowerChar('.') == '.';
    assert le[1] == LowerChar(x[0]) == lx[0];
    assert le[2] == LowerChar(x[1]) == lx[1];
  }

  /** `<stem>.ts` names TypeScript whatever the case of `ts`. */
  lemma TypeScriptInAnyCase(stem: string, x: string)
    requires stem != [] && forall i :: 0 <= i < |stem| ==> stem[i] != '/'
    requires ToLowerCase(x) == "ts"
    ensures GetLanguageFromFilename(stem + "." + x) == "typescript"
  {
    SpellingOfTs(x);
    LanguageOfPlainName(stem, x);
    TypeScriptEntry();
  }

  lemma TypeScriptEntry()
    ensures ".ts" in LanguageMap && LanguageMap[".ts"] == "typescript"
  {
  }

  /** Lower-casing a two-letter string lower-cases each letter. */
  lemma LowerOfTwo(a: char, b: char)
    ensures ToLowerCase([a, b]) == [LowerChar(a), LowerChar(b)]
  {
  }

  /** `<stem>.TS`, `<stem>.Ts` and `<stem>.tS` name TypeScript, as `<stem>.ts` does. */
  lemma TypeScriptSpellings(stem: string)
    requires stem != [] && forall i :: 0 <= i < |stem| ==> stem[i] != '/'
    ensures GetLanguageFromFilename(stem + ".ts") == "typescript"
    ensures GetLanguageFromFilename(stem + ".TS") == "typescript"
    ensures GetLanguageFromFilename(stem + ".Ts") == "typescript"
    ensures GetLanguageFromFilename(stem + ".tS") == "typescript"
  {
    SpellingTs(stem, 't', 's');
    SpellingTs(stem, 'T', 'S');
    SpellingTs(stem, 'T', 's');
    SpellingTs(stem, 't', 'S');
  }

  lemma SpellingTs(stem: string, a: char, b: char)
    requires stem != [] && forall i :: 0 <= i < |stem| ==> stem[i] != '/'
    requires a == 't' || a == 'T'
    requires b == 's' || b == 'S'
    ensures GetLanguageFromFilename(stem + ['.', a, b]) == "typescript"
  {
    LowerOfTwo(a, b);
    TypeScriptInAnyCase(stem, [a, b]);
    DotThenTwo(stem, a, b);
  }

  lemma DotThenTwo(stem: string, a: char, b: char)
    ensures stem + "." + [a, b] == stem + ['.', a, b]
  {
  }
}
