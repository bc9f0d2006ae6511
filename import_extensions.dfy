/**
  The replacement closure of `fix_import_extensions` in the build script of
  taffy-wasm. For every relative import the regular expression finds, the closure
  receives the quote-and-`from` prefix, the import path and the closing quote, and
  returns them unchanged when the path already has an extension, or with `.js`
  appended to the path otherwise.

  Rust's `rfind` returns a byte offset; here positions are character positions.
  Both grow with the position in the string, so comparing the last `.` with the
  last `/` gives the same answer either way.
 */
module ImportExtensions {
  import opened Optional

  /** `s.rfind(c)`: the position of the last occurrence of `c` in `s`, if any. */
  function LastIndexOf(s: string, c: char): (r: Option<nat>)
    ensures r.None? <==> c !in s
    ensures r.Some? ==> r.value < |s| && s[r.value] == c
    ensures r.Some? ==> forall j :: r.value < j < |s| ==> s[j] != c
    decreases |s|
  {
    if |s| == 0 then None
    else if s[|s| - 1] == c then Some(|s| - 1)
    else
      assert forall j :: 0 <= j < |s| - 1 ==> s[..|s| - 1][j] == s[j];
      LastIndexOf(s[..|s| - 1], c)
  }

  /**
    The closure's test: the path has a `.`, and either it has no `/` or its last `.`
    comes after its last `/`.
   */
  predicate HasExtension(importPath: string): (b: bool)
    ensures b ==> '.' in importPath
    ensures '/' !in importPath ==> (b <==> '.' in importPath)
    ensures importPath != [] && importPath[|importPath| - 1] == '/' ==> !b
  {
    match LastIndexOf(importPath, '.')
    case None => false
    case Some(dotIdx) =>
      match LastIndexOf(importPath, '/')
      case None => true
      case Some(slashIdx) => dotIdx > slashIdx
  }

  /** An independent reading of the test: some `.` has no `/` anywhere after it. */
  ghost predicate DotInLastSegment(importPath: string) {
    exists d :: 0 <= d < |importPath| && importPath[d] == '.' &&
      forall j :: d < j < |importPath| ==> importPath[j] != '/'
  }

  lemma HasExtensionIff(importPath: string)
    ensures HasExtension(importPath) <==> DotInLastSegment(importPath)
  {
    var dot := LastIndexOf(importPath, '.');
    var slash := LastIndexOf(importPath, '/');
    if HasExtension(importPath) {
      assert importPath[dot.value] == '.';
      if slash.Some? {
        assert forall j :: dot.value < j < |importPath| ==> importPath[j] != '/';
      }
    }
    if DotInLastSegment(importPath) {
      var d :| 0 <= d < |importPath| && importPath[d] == '.' &&
        forall j :: d < j < |importPath| ==> importPath[j] != '/';
      assert dot.Some? && dot.value >= d;
      if slash.Some? {
        assert slash.value != d;
        assert slash.value < d;
      }
    }
  }

  /** The import path the closure writes back. */
  function RewriteImportPath(importPath: string): (r: string)
    ensures r == importPath <==> HasExtension(importPath)
    ensures r == importPath || r == importPath + ".js"
    ensures HasExtension(r)
  {
    if HasExtension(importPath) then importPath
    else
      JsSuffixGivesExtension(importPath);
      importPath + ".js"
  }

  /** A path ending in `.js` has an extension whatever comes before it. */
  lemma JsSuffixGivesExtension(importPath: string)
    ensures HasExtension(importPath + ".js")
  {
    var p := importPath + ".js";
    var n := |importPath|;
    assert p[n] == '.' && p[n + 1] == 'j' && p[n + 2] == 's';
    var dot := LastIndexOf(p, '.');
    assert dot.Some? && dot.value == n;
    var slash := LastIndexOf(p, '/');
    if slash.Some? {
      assert slash.value < n;
    }
  }

  /** The whole closure: `prefix`, the rewritten path and `suffix`, concatenated. */
  function ReplaceImport(prefix: string, importPath: string, suffix: string): (r: string)
    ensures HasExtension(importPath) ==> r == prefix + importPath + suffix
    ensures !HasExtension(importPath) ==> r == prefix + importPath + ".js" + suffix
  {
    prefix + RewriteImportPath(importPath) + suffix
  }

  /**
    Rewriting is idempotent: a path that was just given `.js` is left as it is, so a
    second pass over an import the closure already rewrote changes nothing.
   */
  lemma RewriteIdempotent(prefix: string, importPath: string, suffix: string)
    ensures RewriteImportPath(RewriteImportPath(importPath)) == RewriteImportPath(importPath)
    ensures ReplaceImport(prefix, RewriteImportPath(importPath), suffix)
         == ReplaceImport(prefix, importPath, suffix)
  {
  }

  /** A path whose every `.` lies before a `/` at position `slash` has no extension. */
  lemma SlashAfterDots(importPath: string, slash: nat)
    requires slash < |importPath| && importPath[slash] == '/'
    requires forall j :: slash <= j < |importPath| ==> importPath[j] != '.'
    ensures !HasExtension(importPath)
  {
  }

  /** `./Name`, one shape of path the regular expression captures, is given `.js`. */
  lemma RewriteDotSlash()
    ensures RewriteImportPath("./Style") == "./Style.js"
  {
    SlashAfterDots("./Style", 1);
  }

  /** `../Name`, the other shape, is given `.js` too: its dots come before its slash. */
  lemma RewriteDotDotSlash()
    ensures RewriteImportPath("../Style") == "../Style.js"
  {
    SlashAfterDots("../Style", 2);
  }

  /** `./Name.js` is left alone. */
  lemma RewriteKeepsJs()
    ensures RewriteImportPath("./Style.js") == "./Style.js"
  {
    JsSuffixGivesExtension("./Style");
    assert "./Style" + ".js" == "./Style.js";
  }
}
