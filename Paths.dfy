/**
 * Path cleanup: the sanitising `write_file` applies to a block's path, the
 * lighter cleanup and the file filter of `create_directories`, and the
 * parent directory `write_file` creates. `pathlib` is read with its POSIX
 * semantics: only `/` separates components.
 */
module Paths {
  import opened Text

  /** `p.replace('"', '').replace("'", '')`. */
  function StripQuotes(p: string): string {
    Remove(Remove(p, "\""), "'")
  }

  /** A path is treated as absolute when it starts with `/` or has `:` as its second character. */
  predicate LooksAbsolute(p: string) {
    StartsWith(p, "/") || (|p| > 1 && p[1] == ':')
  }

  /** `PurePosixPath(p).name`: the last component, ignoring empty and `.` components. */
  function PosixName(p: string): (r: string)
    ensures '/' !in r
    ensures forall c :: c in r ==> c in p
    decreases |p|
  {
    var last := AfterLast(p, '/');
    if last == p then (if p == "." then "" else p)
    else if last == "" || last == "." then PosixName(p[..|p| - |last| - 1])
    else last
  }

  /** The path `write_file` uses: stripped, quote-free, and cut to its last component when absolute. */
  function Sanitize(raw: string): string {
    var p := StripQuotes(Strip(raw));
    if LooksAbsolute(p) then PosixName(p) else p
  }

  /** The cleaned path holds no quote, never starts with `/`, and keeps no `/` at all when the input was absolute. */
  lemma SanitizeSafe(raw: string)
    ensures var r := Sanitize(raw);
      && '"' !in r && '\'' !in r
      && !StartsWith(r, "/")
      && (LooksAbsolute(StripQuotes(Strip(raw))) ==> '/' !in r)
      && (!LooksAbsolute(StripQuotes(Strip(raw))) ==> r == StripQuotes(Strip(raw)))
  {
    var s := Strip(raw);
    var q1 := Remove(s, "\"");
    RemoveCharGone(s, '"');
    RemoveCharGone(q1, '\'');
    RemoveKeepsChars(q1, "'");
    var p := StripQuotes(s);
    if LooksAbsolute(p) {
      var r := PosixName(p);
      if r != [] {
        assert r[0] in r;
      }
    }
  }

  /** A path whose last `/`-segment is a proper name is reduced to that segment. */
  lemma PosixNameIsLastSegment(p: string)
    requires AfterLast(p, '/') != "" && AfterLast(p, '/') != "."
    requires '/' in p
    ensures PosixName(p) == AfterLast(p, '/')
  {
  }

  /** The cleanup `create_directories` applies: stripped and quote-free, nothing more. */
  function DirTarget(raw: string): string {
    StripQuotes(Strip(raw))
  }

  /** A directory candidate is skipped as a file when a dot follows its last `/` or its last `\`. */
  predicate LooksLikeFile(d: string) {
    Contains(AfterLast(d, '/'), ".") || Contains(AfterLast(d, '\\'), ".")
  }

  /** The parent `os.makedirs` is given before a write: everything before the last `/`, or the output root `""`. */
  function ParentDir(p: string): string {
    var last := AfterLast(p, '/');
    if last == p then "" else p[..|p| - |last| - 1]
  }

  /**
   * The file filter of `create_directories` on a candidate without a
   * backslash: the text after the last backslash is then the whole
   * candidate, so a dot anywhere marks it as a file, even in an earlier
   * segment.
   */
  lemma FileFilterWithoutBackslash(d: string)
    requires '\\' !in d
    ensures LooksLikeFile(d) <==> '.' in d
  {
    AfterLastNoSep(d, '\\');
    ContainsChar(d, '.');
    var last := AfterLast(d, '/');
    ContainsChar(last, '.');
    assert forall c :: c in last ==> c in d by {
      forall c | c in last ensures c in d {
        var k :| 0 <= k < |last| && last[k] == c;
        assert d[|d| - |last| + k] == c;
      }
    }
  }

  /** A quote-free text that neither starts nor ends with whitespace is left as it is by the first cleanup. */
  lemma CleanupUntouched(s: string)
    requires '"' !in s && '\'' !in s
    requires s == [] || (!IsSpace(s[0]) && !IsSpace(s[|s| - 1]))
    ensures StripQuotes(Strip(s)) == s
  {
    StripUntouched(s);
    ContainsChar(s, '"');
    RemoveAbsent(s, "\"");
    ContainsChar(s, '\'');
    RemoveAbsent(s, "'");
  }

  /** An absolute path the first cleanup leaves alone is cut to its last segment when that is a proper name. */
  lemma SanitizeTakesName(p: string, dir: string, name: string)
    requires p == dir + ['/'] + name
    requires '"' !in p && '\'' !in p && !IsSpace(p[0]) && !IsSpace(p[|p| - 1])
    requires LooksAbsolute(p)
    requires '/' !in name && name != "" && name != "."
    ensures Sanitize(p) == name
  {
    CleanupUntouched(p);
    AfterLastAfterSep(dir, name, '/');
  }

  /** An absolute Unix path is written under its last segment: `/etc/passwd` as `passwd`. */
  lemma EtcPasswd()
    ensures Sanitize("/etc/passwd") == "passwd"
  {
    var s := "/etc/passwd";
    assert s == "/etc" + ['/'] + "passwd";
    assert LooksAbsolute(s) by {
      assert s[..1] == "/";
    }
    SanitizeTakesName(s, "/etc", "passwd");
  }

  /** A drive-letter path with `/` separators is written under its last segment: `C:/x/y.txt` as `y.txt`. */
  lemma DriveSlash()
    ensures Sanitize("C:/x/y.txt") == "y.txt"
  {
    var s := "C:/x/y.txt";
    assert s == "C:/x" + ['/'] + "y.txt";
    SanitizeTakesName(s, "C:/x", "y.txt");
  }

  /** A path without `/` that the first cleanup leaves alone is kept whole, even when it looks absolute. */
  lemma SanitizeKeepsSlashFree(p: string)
    requires '"' !in p && '\'' !in p && (p == [] || (!IsSpace(p[0]) && !IsSpace(p[|p| - 1])))
    requires '/' !in p && p != "."
    ensures Sanitize(p) == p
  {
    CleanupUntouched(p);
    AfterLastNoSep(p, '/');
  }

  /** A drive-letter path with backslash separators holds no `/` and keeps its whole text under POSIX rules. */
  lemma DriveBackslash()
    ensures Sanitize("C:\\x\\y.txt") == "C:\\x\\y.txt"
  {
    SanitizeKeepsSlashFree("C:\\x\\y.txt");
  }

}
