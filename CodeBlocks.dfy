/**
 * The code-block extractor (`parse_code_blocks`): a line scanner with two
 * states, outside a fenced block (remembering a pending file-path hint) and
 * inside one (accumulating its code). It is modelled three times over:
 * `Next`/`Run` is the state machine with named states, `ParseCodeBlocks` is
 * the flag-based loop the program runs, proved to compute `Run`, and
 * `Segments` is an independent block-at-a-time reading of the same rules,
 * proved equal to `Run` by `RunIsSegments`.
 */
module CodeBlocks {
  import opened Options
  import opened Text

  /** One emitted `{file_path, code}` record. */
  datatype Block = Block(path: string, code: string)

  const Fence: string := "```"

  /** Fences are recognised by containment of three backticks anywhere on the line. */
  predicate IsFence(line: string) {
    Contains(line, Fence)
  }

  /** A line outside a block that names the file of the next block. */
  predicate IsHintLine(line: string) {
    || Contains(line, "File:")
    || EndsWith(line, ".py") || EndsWith(line, ".js") || EndsWith(line, ".html")
    || EndsWith(line, ".css") || EndsWith(line, ".json")
    || (Contains(line, "/") && Contains(AfterLast(line, '/'), "."))
  }

  /** The pending hint a hint line leaves: `File:` removed, then stripped. */
  function HintPath(line: string): string {
    Strip(Remove(line, "File:"))
  }

  /** The extension of a default file name for a language tag. */
  function Extension(tag: string): string {
    if tag == "python" then "py" else if tag == "javascript" then "js" else tag
  }

  /** The path a block opened by `fence` gets: the pending hint, else one made from the language tag. */
  function OpeningPath(hint: string, fence: string): Option<string> {
    var tag := Strip(Remove(fence, Fence));
    if hint != "" then Some(hint)
    else if tag != "" then Some("default." + Extension(tag))
    else None
  }

  /** A closed block is kept only with a non-empty path and code that is not all whitespace. */
  function Completed(path: Option<string>, code: string): seq<Block> {
    if path.Some? && path.value != "" && Strip(code) != "" then [Block(path.value, code)] else []
  }

  /** The scanner's states. */
  datatype Scan = Outside(hint: string) | Inside(path: Option<string>, code: string)

  const Start: Scan := Outside("")

  /** The state after one line. */
  function Next(st: Scan, line: string): Scan {
    match st
    case Outside(hint) =>
      if IsFence(line) then Inside(OpeningPath(hint, line), "")
      else if IsHintLine(line) then Outside(HintPath(line))
      else st
    case Inside(path, code) =>
      if IsFence(line) then Outside("") else Inside(path, code + line + "\n")
  }

  /** The blocks one line emits: only a closing fence emits anything. */
  function Emit(st: Scan, line: string): seq<Block> {
    if st.Inside? && IsFence(line) then Completed(st.path, st.code) else []
  }

  /** The blocks emitted while scanning `lines` from state `st`. */
  function Run(st: Scan, lines: seq<string>): seq<Block>
    decreases |lines|
  {
    if lines == [] then [] else Emit(st, lines[0]) + Run(Next(st, lines[0]), lines[1..])
  }

  /** The state after scanning `lines` from `st`. */
  function Final(st: Scan, lines: seq<string>): Scan
    decreases |lines|
  {
    if lines == [] then st else Final(Next(st, lines[0]), lines[1..])
  }

  /** One step of the scan, starting at line `i`. */
  lemma RunStep(st: Scan, lines: seq<string>, i: nat)
    requires i < |lines|
    ensures Run(st, lines[i..]) == Emit(st, lines[i]) + Run(Next(st, lines[i]), lines[i + 1..])
  {
    assert lines[i..][1..] == lines[i + 1..];
  }

  /** The blocks of a response split into lines. */
  function Blocks(lines: seq<string>): seq<Block> {
    Run(Start, lines)
  }

  // ---------------------------------------------------------------------------
  // The reference reading: one block at a time.

  /** The index of the first fence line of `lines`, if there is one. */
  function FirstFence(lines: seq<string>): (k: Option<nat>)
    ensures k.Some? ==> k.value < |lines| && IsFence(lines[k.value])
    ensures k.Some? ==> forall j :: 0 <= j < k.value ==> !IsFence(lines[j])
    ensures k.None? ==> forall j :: 0 <= j < |lines| ==> !IsFence(lines[j])
    decreases |lines|
  {
    if lines == [] then None
    else if IsFence(lines[0]) then Some(0)
    else match FirstFence(lines[1..])
      case None => None
      case Some(k) => Some(k + 1)
  }

  /** The code of a block: every line followed by a newline. */
  function Body(lines: seq<string>): string
    decreases |lines|
  {
    if lines == [] then "" else lines[0] + "\n" + Body(lines[1..])
  }

  /**
   * Reading `lines` outside any block with pending hint `hint`: a fence opens
   * a block that runs to the next fence line, whatever that line holds; a
   * block with no later fence is never emitted.
   */
  function Segments(lines: seq<string>, hint: string): seq<Block>
    decreases |lines|
  {
    if lines == [] then []
    else if !IsFence(lines[0]) then
      Segments(lines[1..], if IsHintLine(lines[0]) then HintPath(lines[0]) else hint)
    else match FirstFence(lines[1..])
      case None => []
      case Some(k) =>
        Completed(OpeningPath(hint, lines[0]), Body(lines[1..k + 1])) + Segments(lines[k + 2..], "")
  }

  /** The reference reading resumed from any scanner state. */
  function Resume(st: Scan, lines: seq<string>): seq<Block> {
    match st
    case Outside(hint) => Segments(lines, hint)
    case Inside(path, code) =>
      match FirstFence(lines)
      case None => []
      case Some(k) => Completed(path, code + Body(lines[..k])) + Segments(lines[k + 1..], "")
  }

  /** The line-by-line state machine and the block-at-a-time reading emit the same blocks. */
  lemma {:induction false} RunIsSegments(st: Scan, lines: seq<string>)
    ensures Run(st, lines) == Resume(st, lines)
    decreases |lines|
  {
    if lines != [] {
      RunIsSegments(Next(st, lines[0]), lines[1..]);
      ResumeStep(st, lines);
    }
  }

  /** The block-at-a-time reading advances over one line exactly as the scanner does. */
  lemma ResumeStep(st: Scan, lines: seq<string>)
    requires lines != []
    ensures Resume(st, lines) == Emit(st, lines[0]) + Resume(Next(st, lines[0]), lines[1..])
  {
    var line, rest := lines[0], lines[1..];
    match st
    case Outside(hint) =>
      if IsFence(line) {
        OpeningStep(hint, lines);
      }
    case Inside(path, code) =>
      if IsFence(line) {
        assert FirstFence(lines) == Some(0);
        assert code + Body(lines[..0]) == code;
      } else {
        InsideStep(path, code, lines);
      }
  }

  /** An opening fence outside a block: the block runs to the next fence. */
  lemma OpeningStep(hint: string, lines: seq<string>)
    requires lines != [] && IsFence(lines[0])
    ensures Segments(lines, hint) == Resume(Inside(OpeningPath(hint, lines[0]), ""), lines[1..])
  {
    var rest := lines[1..];
    match FirstFence(rest)
    case None =>
    case Some(k) =>
      assert rest[..k] == lines[1..k + 1];
      assert rest[k + 1..] == lines[k + 2..];
      assert "" + Body(rest[..k]) == Body(rest[..k]);
  }

  /** A content line inside a block joins the code. */
  lemma InsideStep(path: Option<string>, code: string, lines: seq<string>)
    requires lines != [] && !IsFence(lines[0])
    ensures Resume(Inside(path, code), lines) == Resume(Inside(path, code + lines[0] + "\n"), lines[1..])
  {
    var line, rest := lines[0], lines[1..];
    match FirstFence(rest)
    case None =>
    case Some(k) =>
      assert FirstFence(lines) == Some(k + 1);
      assert lines[..k + 1][1..] == rest[..k];
      assert Body(lines[..k + 1]) == line + "\n" + Body(rest[..k]);
      assert code + line + "\n" + Body(rest[..k]) == code + Body(lines[..k + 1]);
      assert rest[k + 1..] == lines[k + 2..];
  }


  /** Every emitted block has a non-empty path and code with a non-whitespace character. */
  lemma {:induction false} RunWellFormed(st: Scan, lines: seq<string>)
    ensures forall b :: b in Run(st, lines) ==> b.path != "" && !AllSpace(b.code)
    decreases |lines|
  {
    if lines != [] {
      RunWellFormed(Next(st, lines[0]), lines[1..]);
      if st.Inside? && st.path.Some? {
        StripEmptyIff(st.code);
      }
    }
  }

  /** Every emitted block passes the write guard of `process_response`: its path and its code are non-empty. */
  lemma BlocksHaveContent(lines: seq<string>)
    ensures forall b :: b in Blocks(lines) ==> b.path != "" && b.code != ""
  {
    RunWellFormed(Start, lines);
    forall b | b in Blocks(lines) ensures b.code != "" {
      assert !AllSpace(b.code);
    }
  }

  /** Blocks come out in source order: scanning `a + b` emits what `a` emits, then what `b` emits from there. */
  lemma {:induction false} RunAppend(st: Scan, a: seq<string>, b: seq<string>)
    ensures Run(st, a + b) == Run(st, a) + Run(Final(st, a), b)
    decreases |a|
  {
    if a != [] {
      RunAppend(Next(st, a[0]), a[1..], b);
      assert (a + b)[0] == a[0];
      assert (a + b)[1..] == a[1..] + b;
    } else {
      assert a + b == b;
    }
  }

  /** A block still open when the text ends is never emitted. */
  lemma UnclosedBlockDropped(hint: string, open: string, tail: seq<string>)
    requires IsFence(open)
    requires forall j :: 0 <= j < |tail| ==> !IsFence(tail[j])
    ensures Run(Outside(hint), [open] + tail) == []
  {
    RunIsSegments(Outside(hint), [open] + tail);
    assert ([open] + tail)[1..] == tail;
  }

  /** Scanning from the start is the block-at-a-time reading with no pending hint. */
  lemma BlocksAreSegments(lines: seq<string>)
    ensures Blocks(lines) == Segments(lines, "")
  {
    RunIsSegments(Start, lines);
  }

  /** A hint line outside a block only sets the pending hint. */
  lemma HintThenBlock(hint: string, rest: seq<string>)
    requires !IsFence(hint) && IsHintLine(hint)
    ensures Segments([hint] + rest, "") == Segments(rest, HintPath(hint))
  {
    ConsTail(hint, rest);
  }

  /** Proof helper: the first line split off a hinted block. */
  lemma Regroup<T>(a: T, b: T, c: seq<T>, d: T)
    ensures [a, b] + c + [d] == [a] + ([b] + c + [d])
  {
  }

  /**
   * A hint line, an opening fence, fence-free content and a closing fence give
   * exactly one block, named by the hint and holding the content lines.
   */
  lemma HintedBlock(hint: string, open: string, content: seq<string>, close: string)
    requires !IsFence(hint) && IsHintLine(hint) && HintPath(hint) != ""
    requires IsFence(open) && IsFence(close)
    requires forall j :: 0 <= j < |content| ==> !IsFence(content[j])
    requires !AllSpace(Body(content))
    ensures Blocks([hint, open] + content + [close]) == [Block(HintPath(hint), Body(content))]
  {
    var block := [open] + content + [close];
    var lines := [hint, open] + content + [close];
    var h := HintPath(hint);
    BlocksAreSegments(lines);
    Regroup(hint, open, content, close);
    HintThenBlock(hint, block);
    SingleBlock(h, open, content, close);
    StripEmptyIff(Body(content));
  }

  /** Proof helper: the head and tail of a line list built by one cons. */
  lemma ConsTail(x: string, xs: seq<string>)
    ensures ([x] + xs)[0] == x && ([x] + xs)[1..] == xs
  {
  }

  /** Outside a block with a pending hint, a fence, fence-free content and a fence form one block named by the hint. */
  lemma SingleBlock(h: string, open: string, content: seq<string>, close: string)
    requires h != "" && IsFence(open) && IsFence(close)
    requires forall j :: 0 <= j < |content| ==> !IsFence(content[j])
    ensures Segments([open] + content + [close], h) == Completed(Some(h), Body(content))
  {
    var block := [open] + content + [close];
    var k := |content|;
    ClosedAfter(content, close);
    assert block[1..] == content + [close];
    assert block[1..k + 1] == content;
    assert block[k + 2..] == [];
    assert OpeningPath(h, open) == Some(h);
  }

  /** The first fence of fence-free lines followed by a fence line is that last line. */
  lemma {:induction false} ClosedAfter(content: seq<string>, close: string)
    requires IsFence(close)
    requires forall j :: 0 <= j < |content| ==> !IsFence(content[j])
    ensures FirstFence(content + [close]) == Some(|content|)
    decreases |content|
  {
    if content == [] {
      assert content + [close] == [close];
    } else {
      ClosedAfter(content[1..], close);
      assert (content + [close])[1..] == content[1..] + [close];
    }
  }

  /**
   * Default naming: with no pending hint the language tag names the file,
   * `python` as `default.py`, `javascript` as `default.js` and any other tag
   * `t` as `default.t`; an untagged fence gives no path.
   */
  lemma DefaultNames(tag: string)
    requires tag != [] && '`' !in tag && !IsSpace(tag[0]) && !IsSpace(tag[|tag| - 1])
    ensures OpeningPath("", Fence + tag) == Some("default." + Extension(tag))
    ensures OpeningPath("", Fence) == None
    ensures Extension("python") == "py" && Extension("javascript") == "js" && Extension("rust") == "rust"
  {
    assert !Contains(tag, Fence) by {
      if Contains(tag, Fence) { ContainsFirstChar(tag, Fence); }
    }
    RemoveAbsent(tag, Fence);
    assert (Fence + tag)[..|Fence|] == Fence;
    assert (Fence + tag)[|Fence|..] == tag;
    assert Fence[..|Fence|] == Fence && Fence[|Fence|..] == [];
  }

  /** The scanner state the program's variables stand for. */
  function State(inCodeBlock: bool, path: Option<string>, code: string, filePathLine: string): Scan {
    if inCodeBlock then Inside(path, code) else Outside(filePathLine)
  }

  /** The program's variables are consistent: outside a block there is no block data, inside no pending hint. */
  predicate Tidy(inCodeBlock: bool, path: Option<string>, code: string, filePathLine: string) {
    (!inCodeBlock ==> path == None && code == "") && (inCodeBlock ==> filePathLine == "")
  }

  /** The body of the scan loop on one line: it makes one step of the scanner and emits what that step emits. */
  method ScanLine(inCodeBlock: bool, path: Option<string>, code: string, filePathLine: string, line: string)
    returns (inCodeBlock': bool, path': Option<string>, code': string, filePathLine': string, emitted: seq<Block>)
    requires Tidy(inCodeBlock, path, code, filePathLine)
    ensures Tidy(inCodeBlock', path', code', filePathLine')
    ensures State(inCodeBlock', path', code', filePathLine') == Next(State(inCodeBlock, path, code, filePathLine), line)
    ensures emitted == Emit(State(inCodeBlock, path, code, filePathLine), line)
  {
    inCodeBlock', path', code', filePathLine', emitted := inCodeBlock, path, code, filePathLine, [];
    if !inCodeBlock && !IsFence(line) && IsHintLine(line) {
      filePathLine' := HintPath(line);
    } else if IsFence(line) && !inCodeBlock {
      inCodeBlock' := true;
      var languageMarker := Strip(Remove(line, Fence));
      if filePathLine != "" {
        path' := Some(filePathLine);
      } else if languageMarker != "" {
        path' := Some("default." + Extension(languageMarker));
      }
      filePathLine' := "";
    } else if IsFence(line) && inCodeBlock {
      inCodeBlock' := false;
      if path.Some? && path.value != "" && Strip(code) != "" {
        emitted := [Block(path.value, code)];
      }
      path', code' := None, "";
    } else if inCodeBlock {
      code' := code + line + "\n";
    }
  }

  /** The flag-and-accumulator scan of the response text, as the program runs it. */
  method ParseCodeBlocks(text: string) returns (codeBlocks: seq<Block>)
    ensures codeBlocks == Blocks(Split(text, '\n'))
    ensures forall b :: b in codeBlocks ==> b.path != "" && !AllSpace(b.code)
  {
    var lines := Split(text, '\n');
    codeBlocks := [];
    var inCodeBlock := false;
    var path: Option<string> := None;
    var code := "";
    var filePathLine := "";
    for i := 0 to |lines|
      invariant Tidy(inCodeBlock, path, code, filePathLine)
      invariant codeBlocks + Run(State(inCodeBlock, path, code, filePathLine), lines[i..]) == Blocks(lines)
    {
      RunStep(State(inCodeBlock, path, code, filePathLine), lines, i);
      var emitted;
      inCodeBlock, path, code, filePathLine, emitted := ScanLine(inCodeBlock, path, code, filePathLine, lines[i]);
      codeBlocks := codeBlocks + emitted;
    }
    RunWellFormed(Start, lines);
  }

}
