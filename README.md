# Continuous code generator: response processing, modelled in Dafny

The continuous code generator asks a language model for code in rounds. After
each response it does three things. It finds the directory names listed under
a "project structure" heading and creates those directories. It finds the
fenced code blocks and writes each one to a file under the output directory.
It records every file it writes in a file registry. It then builds the next
round's prompt from that registry.

This project models that core, the part of `ClaudeContinuousCodeGenerator`
that turns a response into directories, files, messages and the next prompt:

- `CodeBlocks.dfy` — `parse_code_blocks`. A line scanner with a pending file
  hint and an in-block flag. It is written as the loop the program runs
  (`ParseCodeBlocks`). That loop is proved equal to a one-step state machine
  (`Next`/`Emit`/`Run`). The state machine is proved equal to a reading that
  takes one block at a time (`Segments`).
- `Structure.dfy` — `extract_file_structure`. The loop with its mode flag
  (`ExtractFileStructure`) is proved to compute `Candidates`. `Candidates`
  describes the output without the flag: a line is emitted when an earlier
  marker line has had no end line since.
- `Paths.dfy` — the path cleanup of `write_file` and `create_directories`.
  This covers stripping, quote removal, cutting an absolute path to its last
  component with POSIX `pathlib` rules, the file filter, and the parent
  directory.
- `OrderedMaps.dfy` — the registry's Python `dict`: insertion-ordered, and
  assigning to an existing key keeps its place.
- `Prompt.dfy` — `generate_next_prompt`. The template is kept line by line.
- `Generator.dfy` — the generator object. A `class ContinuousGenerator`
  holds the disk and the file registry. `WriteFile`, `CreateDirectories`
  and `ProcessResponse` update them in place. Each method is proved against
  a function on values (`Store`, `MakeDirs`, `ProcessSpec`). The loop of
  `create_directories` is the method `CreateEach`. The skip test of
  `write_file` compares the code with the file as a text-mode read returns
  it (`ReadBack`), so `\r\n` and a lone `\r` read as `\n`. The lemmas
  about those functions state what the program promises. The class invariant
  says every registry entry is a file on disk with its length recorded.
- `Text.dfy` — the Python string operations used here: `strip` (over
  `str.isspace` characters), `in`, `startswith`/`endswith`, `replace(x, "")`,
  `split`/`join`, `split(sep)[-1]`, `lower` and integer formatting.
- `Options.dfy` — an `Option` type.

The file system is the value `Disk(files, dirs)`. An exception the
operating system could raise is an input: one `Option<string>` per call,
holding `str(e)`, in call order.

## Model

| member | source | states |
|---|---|---|
| `CodeBlocks.ParseCodeBlocks` | claude_code_generator.py:42-98 | The loop emits exactly the blocks of the reference reading. Every emitted block has a non-empty path and code that is not all whitespace. |
| `CodeBlocks.ScanLine` | claude_code_generator.py:59-96 | The loop body on one line, with the program's four branches, takes exactly one step of the scanner state machine and emits exactly what that step emits. The flags stay consistent: no block data outside a block, no pending hint inside one. |
| `CodeBlocks.RunIsSegments` | claude_code_generator.py:59-96 | Block by block: an opening fence takes the pending hint, or a name made from the language tag. The lines up to the next fence, each followed by a newline, are the code. A block is emitted at its closing fence only when it has a path and code that is not blank. The hint is cleared at every opening fence. |
| `CodeBlocks.ResumeStep` | claude_code_generator.py:59-96 | The block-at-a-time reading advances over any one line exactly as the scanner does. |
| `CodeBlocks.OpeningStep` | claude_code_generator.py:68-85 | After an opening fence, the block reading continues inside a block named by the pending hint or the language tag, with empty code. |
| `CodeBlocks.InsideStep` | claude_code_generator.py:94-96 | Inside a block, a line that is not a fence joins the code followed by a newline. |
| `CodeBlocks.HintThenBlock` | claude_code_generator.py:61-65 | Outside a block, a hint line that is not a fence only sets the pending hint. |
| `CodeBlocks.RunWellFormed` | claude_code_generator.py:88-92 | No emitted block has an empty path or code that is all whitespace. |
| `CodeBlocks.BlocksHaveContent` | claude_code_generator.py:90-91 | Every block of a response has a non-empty path and non-empty code, so the guard at the write never drops one. |
| `CodeBlocks.RunAppend` | claude_code_generator.py:59-96 | Scanning two pieces of a response one after the other emits what scanning them as one does. |
| `CodeBlocks.UnclosedBlockDropped` | claude_code_generator.py:88-98 | A block opened and never closed before the end of the text is not emitted. |
| `CodeBlocks.HintedBlock` | claude_code_generator.py:61-91 | A hint line, a fence, fence-free content and a closing fence give exactly one block. It carries the hint with `File:` removed and stripped, and the content lines joined with newlines. |
| `CodeBlocks.SingleBlock` | claude_code_generator.py:68-91 | With a pending name, one fenced block yields the completion of that name and its body. |
| `CodeBlocks.ClosedAfter` | claude_code_generator.py:88 | The first fence after fence-free content is the closing line. |
| `CodeBlocks.DefaultNames` | claude_code_generator.py:77-83 | Without a hint, a tag names the file `default.<ext>`: `python` becomes `py`, `javascript` becomes `js`, any other tag is kept. A bare fence gives no name. |
| `Structure.ExtractFileStructure` | claude_code_generator.py:100-138 | The loop with its mode flag returns exactly `Candidates` of the response's lines, in line order. |
| `Structure.ModeStep` | claude_code_generator.py:116-126 | The mode after a line is on exactly when the line is a marker, or the mode was on and the line is neither blank nor holds `##`. |
| `Structure.CandidatesAreDirectoryLike` | claude_code_generator.py:131-136 | Every candidate is non-empty. It holds a `/` or `\`, or else it has no dot and does not start with `-`. |
| `Structure.NoMarkerNoCandidates` | claude_code_generator.py:114-129 | A response without a marker line yields no directories. |
| `Structure.HeadingMarker` | claude_code_generator.py:117-125 | `## Project Structure` is both a marker (its lower-case form names the project structure) and an end line. |
| `Structure.HeadingOpensSection` | claude_code_generator.py:120-122 | Because the marker test comes first, `## Project Structure` opens a section and is not itself emitted. |
| `Paths.SanitizeSafe` | claude_code_generator.py:151-156 | The cleaned path holds no quote and never starts with `/`. When the stripped, quote-free path looked absolute, the result holds no `/`; otherwise it is that path unchanged. |
| `Paths.PosixNameIsLastSegment` | claude_code_generator.py:156 | A path whose text after its last `/` is a proper name is reduced to that text. |
| `Paths.CleanupUntouched` | claude_code_generator.py:152 | A quote-free path without whitespace at either end is left as it is by the first cleanup. |
| `Paths.SanitizeTakesName` | claude_code_generator.py:151-156 | An absolute path the first cleanup leaves alone, ending in `/name`, is written as `name`. |
| `Paths.SanitizeKeepsSlashFree` | claude_code_generator.py:151-156 | A path without `/` that the first cleanup leaves alone is kept whole, even when it looks absolute. |
| `Paths.EtcPasswd` | claude_code_generator.py:155-156 | `/etc/passwd` is written as `passwd` under the output directory. |
| `Paths.DriveSlash` | claude_code_generator.py:155-156 | `C:/x/y.txt` is written as `y.txt`. |
| `Paths.DriveBackslash` | claude_code_generator.py:155-156 | `C:\x\y.txt` holds no `/`, so POSIX `pathlib` keeps its whole text as the name. |
| `Paths.FileFilterWithoutBackslash` | claude_code_generator.py:199-201 | For a candidate without a backslash, the file filter skips it exactly when a dot appears anywhere in it. |
| `OrderedMaps.Empty` | claude_code_generator.py:32 | The registry starts empty and well formed. |
| `OrderedMaps.PutSpec` | claude_code_generator.py:177 | Assigning to a registry key keeps the dictionary well formed and sets that key's value. Every other key keeps its presence and value. An existing key keeps its position; a new key goes last. |
| `Prompt.PromptLines` | claude_code_generator.py:248-261 | Line by line, the prompt is the fixed head, then one `path: info` line per registry entry in insertion order (one empty line when there is none), then the fixed tail. |
| `Prompt.EntryLinesSingleLine` | claude_code_generator.py:248 | Entries whose path and summary hold no newline each render as one line. |
| `Generator.SizeInfoDeterminesLength` | claude_code_generator.py:177 | Equal registry summaries mean equal code lengths: the summary records the length. |
| `Generator.MessagesDistinct` | claude_code_generator.py:170-178 | The skip message and the success message can never be confused. |
| `Generator.ReadBack` | claude_code_generator.py:166-169 | The text a text-mode read returns holds no carriage return, is never longer than the file, and is the file's text itself when that holds no carriage return. |
| `Generator.WriteOutcome` | claude_code_generator.py:161-178 | Without an exception the write succeeds. It reports a skip exactly when the file exists and reads back as the code; a skip changes neither the files nor the registry. Otherwise it reports success, the file holds the code, and the registry records the code's length under the path. Either way the file reads back as the code does, the parent directory is added to the directories, and no other file or registry entry changes. |
| `Generator.WriteFailure` | claude_code_generator.py:180-181 | On an exception the call returns false with the error message and changes nothing. |
| `Generator.WriteTwiceWritesOnce` | claude_code_generator.py:165-170 | Writing the same code without a carriage return to the same path a second time is a skip and changes nothing. |
| `Generator.CarriageReturnRewritten` | claude_code_generator.py:165-178 | Code holding a carriage return never reads back as itself, so both writes of it report `Successfully wrote file`. |
| `Generator.CrLfFileSkipped` | claude_code_generator.py:165-170 | Writing `x\n` over a file holding `x\r\n` is a skip: the file keeps its `\r\n` and the registry is unchanged. |
| `Generator.WriteKeepsRegistry` | claude_code_generator.py:173-177 | A write keeps every registry entry naming a file on disk with that file's length. The registry's key order is unchanged, or has the path added last. |
| `Generator.StoreReports` | claude_code_generator.py:170-181 | Each write's message reports on the path it was given, as its outcome says. |
| `Generator.TargetsAreNotFiles` | claude_code_generator.py:195-201 | No directory that is attempted passes the file filter. |
| `Generator.MakeMessages` | claude_code_generator.py:203-211 | Directory creation gives one message per attempted directory, in order. The `j`-th message reports the `j`-th directory, created or failed as the `j`-th call went. No file changes. |
| `Generator.MakeMessageAt` | claude_code_generator.py:203-209 | The `j`-th directory message reports the `j`-th attempted directory with the outcome of the `j`-th call. |
| `Generator.DirLoopStep` | claude_code_generator.py:195-209 | One loop step: a candidate that looks like a file is skipped without a call; otherwise the next call is made on its cleaned text, the directory is added when the call succeeds, and one message is reported. |
| `Generator.CreateEach` | claude_code_generator.py:195-211 | The loop over the candidates returns exactly the disk and messages `MakeDirs` gives. |
| `Generator.MakeAdds` | claude_code_generator.py:204-207 | Afterwards the directories are the old ones plus every attempted directory whose call succeeded. |
| `Generator.WritesLength` | claude_code_generator.py:233-236 | Every parsed block reaches a write. |
| `Generator.WritesInOrder` | claude_code_generator.py:233-236 | The `j`-th write is the `j`-th block with its path cleaned. |
| `Generator.StoreAllMessages` | claude_code_generator.py:233-236 | A run of writes gives one message per write, in order, each about its own path. The registry stays consistent with the disk. |
| `Generator.StoreMessageAt` | claude_code_generator.py:233-236 | The `j`-th message of a run of writes reports on the `j`-th write's path. |
| `Generator.HoldsCodeExact` | claude_code_generator.py:166-174 | A file left by a write of code holding a carriage return holds exactly that code, since such code is never skipped. |
| `Generator.StoreAllLastWrite` | claude_code_generator.py:166-175 | After a run of writes, a file that a successful write named last holds that write's code, or, when that write was skipped, text that reads back as the code. |
| `Generator.StoreAllUntouched` | claude_code_generator.py:166-175 | A file that no successful write of the run names keeps its text. |
| `Generator.StoreAllOnlyNamed` | claude_code_generator.py:173-175 | Every file after a run of writes was there before or is named by a successful write. |
| `Generator.StoreStepKeys` | claude_code_generator.py:173-178 | One write adds its path to the registry keys exactly when it reports a fresh write of an unregistered path. |
| `Generator.StoreAllKeys` | claude_code_generator.py:173-178 | After a run of writes the registry keys are the old keys, then each freshly written path not yet registered, in the order of its first `Successfully wrote file` message. |
| `Generator.StoreAllDirs` | claude_code_generator.py:161-163 | A run of writes adds exactly the parent directory of each write that raised nothing, skipped writes included. |
| `Generator.StoreAllEffects` | claude_code_generator.py:166-178 | A run of writes leaves the files that `StoreAllLastWrite`, `StoreAllUntouched` and `StoreAllOnlyNamed` describe and grows the registry keys in first-write order. |
| `Generator.WriteAllMessages` | claude_code_generator.py:232-236 | Writing a response's blocks gives one message per block, in order, each about the block's cleaned path. The registry stays consistent. |
| `Generator.WriteReportAt` | claude_code_generator.py:232-236 | The `j`-th message reports on the `j`-th block's cleaned path. |
| `Generator.MakeThenStore` | claude_code_generator.py:225-236 | The directory messages come first, then the file messages, each in order. The registry stays consistent. |
| `Generator.PipelineMessages` | claude_code_generator.py:223-238 | A response's messages are its directory messages then its file messages, as above. When no directory was found, there are no directory messages. |
| `Generator.ProcessMessages` | claude_code_generator.py:213-238 | For a whole response: the directory messages for the filtered candidates of the structure section come first, then one message per code block, in order. The registry stays consistent with the disk. |
| `Generator.PipelineEffects` | claude_code_generator.py:223-236 | Directory creation changes no file, so the files after a response are as the blocks' writes leave them. The directories gained are the targets whose call succeeded and the parents of the writes that raised nothing. The registry keys grow in first-write order. |
| `Generator.ProcessEffects` | claude_code_generator.py:213-238 | For a whole response: each file last written by a successful write of a parsed block holds that block's code (or reads back as it, when that write was skipped); other files keep their text; no other file appears; the directories gained are exactly the filtered structure candidates whose call succeeded and the parents of the writes that raised nothing; the registry keys are the old keys followed by the freshly written paths in first-write order. |
| `Generator.ContinuousGenerator.constructor` | claude_code_generator.py:26-32 | A generator starts over an existing disk with an empty registry. |
| `Generator.ContinuousGenerator.WriteFile` | claude_code_generator.py:140-181 | Updates the disk and the registry in place, exactly as `Store` does on the cleaned path, and keeps the class invariant. |
| `Generator.ContinuousGenerator.CreateDirectories` | claude_code_generator.py:183-211 | Updates the disk as `MakeDirs` does, returns its messages, and leaves the registry alone. |
| `Generator.ContinuousGenerator.ProcessResponse` | claude_code_generator.py:213-238 | Updates the disk and registry and returns the messages that `ProcessSpec` gives for the response. |
| `Generator.ContinuousGenerator.GenerateNextPrompt` | claude_code_generator.py:240-262 | With single-line registry entries, the prompt is the head, one `path: info` line per written file in first-write order, and the tail. |

## Left out

- The Anthropic client, `start_generation`, `main` and argument parsing
  (claude_code_generator.py:264-403) are I/O around this core. They are not
  part of this model. `conversation_history` is only appended to there.
- The model name, `max_tokens` and `temperature` are passed to the client
  only. Nothing in the core reads them.
- `create_directory_structure` creates the output directory and prints. It
  is not modelled; the disk's root is the output directory.
- The file system is a value. Reads, writes and `os.makedirs` cannot fail on
  their own; each call's exception is an input. On an exception nothing
  changes. A real failure can leave partial effects, and these are not
  modelled. The one that matters most: `open(full_path, 'w')`
  (claude_code_generator.py:173) truncates the file before `f.write` runs,
  so a write that then fails (a lone surrogate that UTF-8 cannot encode, a
  full disk) leaves the file empty or partial while the registry keeps the
  old length. The class invariant would not hold of the real state after
  that. A parent directory made before a failing write is another.
- An empty cleaned path makes the real write fail, since the output
  directory is not a file. The model leaves that outcome to the fault input.
- Paths are plain text. `pathlib`'s collapsing of `a//b`, of `.`
  components and of a trailing `/` is not applied to disk or registry keys,
  nor is the operating system's resolution of `..` when a path is opened
  (`pathlib` itself keeps `..`). The parent directory
  is the text before the last `/`. `os.makedirs` is not modelled creating
  intermediate directories.
- `Path(...).name` uses POSIX rules: only `/` separates components. A
  Windows path with backslashes, such as `C:\x\y.txt`, is written under its
  whole text (see `Paths.DriveBackslash`). This follows the code, which runs
  with POSIX `pathlib`, and not the Windows reading in which the name
  would be `y.txt`.
- `create_directories` does not cut absolute paths. For a candidate
  `/srv/app`, `pathlib`'s join discards the output directory, so the real
  directory lies outside it. The model records the cleaned text `/srv/app`
  in `dirs` and does not tell the two apart.
- The file filter reads `split("\\")[-1]`. For a candidate without a
  backslash, that is the whole candidate, so a dot anywhere skips it:
  `my.app/src` is treated as a file. The model keeps this
  (`Paths.FileFilterWithoutBackslash`).
- `str.lower` is modelled on ASCII letters only. For the three ASCII markers
  this changes nothing: no non-ASCII character lowers to an ASCII letter
  that could complete a marker.
- The three tree-drawing strings removed at claude_code_generator.py:131 are
  kept as the exact code points in the program's text. They are Mac Roman
  renderings of the UTF-8 bytes of `└── `, `├── ` and `│   `, so real
  box-drawing characters are not removed.
- Text encoding is not modelled: a file holds the string written to it. Of
  the text-mode read only the newline translation is modelled (`ReadBack`).
- `Generator.WriteTwiceWritesOnce` requires code without a carriage return.
  The program compares the code with the file as read back, and that read
  turns every `\r` into a newline, so code holding `\r` is written again on
  every call (`Generator.CarriageReturnRewritten`).
- `Generator.ContinuousGenerator.GenerateNextPrompt`: the line-by-line
  reading is stated only when no registry path or summary holds a newline.
  Summaries never do. A path could only if a caller passed one with an inner
  newline, which parsing a response never produces.
