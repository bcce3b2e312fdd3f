/**
 * The structure extractor (`extract_file_structure`): a line scanner with one
 * boolean mode. A marker line switches the mode on (and is not itself
 * examined further); a blank line or a line holding `##` switches it off;
 * while the mode is on, each line is stripped, cleaned of three tree-drawing
 * strings and kept when it looks like a directory.
 *
 * `Candidates` describes the output without the flag: a line is kept when
 * some earlier marker line has not been followed by an end line since.
 * `ExtractFileStructure` is the flag-based loop, proved to compute it.
 */
module Structure {
  import opened Text

  /** A line whose lower-case form names a structure section opens one. */
  predicate IsMarker(line: string) {
    var lower := Lower(line);
    Contains(lower, "directory structure") || Contains(lower, "file structure") || Contains(lower, "project structure")
  }

  /** A blank line or a markdown heading ends a section. */
  predicate IsSectionEnd(line: string) {
    Strip(line) == "" || Contains(line, "##")
  }

  /**
   * The three tree-drawing strings removed, in this order. They are the code
   * points the program's text holds (U+201A and Latin-1 letters, a Mac Roman
   * reading of the UTF-8 bytes of the box-drawing sequences), kept exactly.
   */
  const Glyph1: string := "\U{201A}\U{EE}\U{EE}\U{201A}\U{EE}\U{C4}\U{201A}\U{EE}\U{C4} "
  const Glyph2: string := "\U{201A}\U{EE}\U{FA}\U{201A}\U{EE}\U{C4}\U{201A}\U{EE}\U{C4} "
  const Glyph3: string := "\U{201A}\U{EE}\U{C7}   "

  /** A section line stripped and cleaned of the tree-drawing strings. */
  function Clean(line: string): string {
    Remove(Remove(Remove(Strip(line), Glyph1), Glyph2), Glyph3)
  }

  /** A cleaned line is kept if it holds a separator, or if it is a non-empty dot-free name not starting with `-`. */
  predicate IsDirectoryLike(clean: string) {
    || Contains(clean, "/") || Contains(clean, "\\")
    || (!Contains(clean, ".") && clean != "" && !StartsWith(clean, "-"))
  }

  /** Between line `from` and line `to` (exclusive) no line ends a section without reopening one. */
  ghost predicate NoEndBetween(lines: seq<string>, from: int, to: int)
    requires 0 <= from && to <= |lines|
  {
    forall k :: from <= k < to ==> IsMarker(lines[k]) || !IsSectionEnd(lines[k])
  }

  /** The mode is on just before line `j`: some marker precedes it with no end line since. */
  ghost predicate OpenBefore(lines: seq<string>, j: int)
    requires 0 <= j <= |lines|
  {
    exists i :: 0 <= i < j && IsMarker(lines[i]) && NoEndBetween(lines, i + 1, j)
  }

  /** Line `j` is emitted: it is neither a marker nor an end line, it lies in a section, and it looks like a directory. */
  ghost predicate Emits(lines: seq<string>, j: int)
    requires 0 <= j < |lines|
  {
    !IsMarker(lines[j]) && OpenBefore(lines, j) && !IsSectionEnd(lines[j]) && IsDirectoryLike(Clean(lines[j]))
  }

  /** The candidates taken from the first `n` lines, in line order. */
  ghost function Candidates(lines: seq<string>, n: nat): seq<string>
    requires n <= |lines|
  {
    if n == 0 then []
    else Candidates(lines, n - 1) + (if Emits(lines, n - 1) then [Clean(lines[n - 1])] else [])
  }

  /** How the mode changes across line `j`: a marker opens it, an end line closes it, anything else keeps it. */
  lemma ModeStep(lines: seq<string>, j: nat)
    requires j < |lines|
    ensures OpenBefore(lines, j + 1) <==> IsMarker(lines[j]) || (OpenBefore(lines, j) && !IsSectionEnd(lines[j]))
  {
    if IsMarker(lines[j]) {
      assert NoEndBetween(lines, j + 1, j + 1);
    } else if OpenBefore(lines, j) && !IsSectionEnd(lines[j]) {
      var i :| 0 <= i < j && IsMarker(lines[i]) && NoEndBetween(lines, i + 1, j);
      assert NoEndBetween(lines, i + 1, j + 1);
    }
    if OpenBefore(lines, j + 1) && !IsMarker(lines[j]) {
      var i :| 0 <= i < j + 1 && IsMarker(lines[i]) && NoEndBetween(lines, i + 1, j + 1);
      assert i < j;
      assert !IsSectionEnd(lines[j]);
      assert NoEndBetween(lines, i + 1, j);
    }
  }

  /** Every candidate is non-empty and holds a separator, or else has no dot and does not start with `-`. */
  lemma {:induction false} CandidatesAreDirectoryLike(lines: seq<string>, n: nat)
    requires n <= |lines|
    ensures forall c :: c in Candidates(lines, n) ==>
      c != "" && (Contains(c, "/") || Contains(c, "\\") || (!Contains(c, ".") && !StartsWith(c, "-")))
    decreases n
  {
    if n > 0 {
      CandidatesAreDirectoryLike(lines, n - 1);
      var c := Clean(lines[n - 1]);
      if Contains(c, "/") && c == "" {
        assert false;
      }
      if Contains(c, "\\") && c == "" {
        assert false;
      }
    }
  }

  /** Without a marker line, nothing is emitted. */
  lemma {:induction false} NoMarkerNoCandidates(lines: seq<string>, n: nat)
    requires n <= |lines|
    requires forall j :: 0 <= j < n ==> !IsMarker(lines[j])
    ensures Candidates(lines, n) == []
    decreases n
  {
    if n > 0 {
      NoMarkerNoCandidates(lines, n - 1);
      assert !OpenBefore(lines, n - 1);
    }
  }

  /** A heading that names the structure is both a marker and an end line. */
  lemma HeadingMarker()
    ensures IsMarker("## Project Structure") && IsSectionEnd("## Project Structure")
  {
    HeadingLower();
    HeadingNamesStructure();
    HeadingHasHashes();
  }

  lemma HeadingLower()
    ensures Lower("## Project Structure") == "## project structure"
  {
  }

  lemma HeadingNamesStructure()
    ensures Contains("## project structure", "project structure")
  {
    var lower := "## project structure";
    assert lower[3..3 + |"project structure"|] == "project structure";
    ContainsAt(lower, "project structure", 3);
  }

  lemma HeadingHasHashes()
    ensures Contains("## Project Structure", "##")
  {
    var line := "## Project Structure";
    assert line[0..0 + |"##"|] == "##";
    ContainsAt(line, "##", 0);
  }

  /**
   * The marker test comes before the end test: `## Project Structure` opens a
   * section rather than closing one, and is not itself emitted.
   */
  lemma HeadingOpensSection(lines: seq<string>, j: nat)
    requires j < |lines| && lines[j] == "## Project Structure"
    ensures OpenBefore(lines, j + 1) && Candidates(lines, j + 1) == Candidates(lines, j)
  {
    HeadingMarker();
    ModeStep(lines, j);
  }

  /** The single pass over the response text, with its mode flag. */
  method ExtractFileStructure(text: string) returns (directories: seq<string>)
    ensures directories == Candidates(Split(text, '\n'), |Split(text, '\n')|)
  {
    var lines := Split(text, '\n');
    directories := [];
    var inStructureSection := false;
    for i := 0 to |lines|
      invariant inStructureSection == OpenBefore(lines, i)
      invariant directories == Candidates(lines, i)
    {
      var line := lines[i];
      ModeStep(lines, i);
      if IsMarker(line) {
        inStructureSection := true;
        continue;
      }
      if inStructureSection && IsSectionEnd(line) {
        inStructureSection := false;
      }
      if inStructureSection {
        var cleanLine := Clean(line);
        if Contains(cleanLine, "/") || Contains(cleanLine, "\\") {
          directories := directories + [cleanLine];
        } else if !Contains(cleanLine, ".") && cleanLine != "" && !StartsWith(cleanLine, "-") {
          directories := directories + [cleanLine];
        }
      }
    }
  }

}
