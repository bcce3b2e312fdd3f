/**
 * The generator object (`ClaudeContinuousCodeGenerator`) as far as it turns
 * response text into files: `write_file`, `create_directories`,
 * `process_response` and `generate_next_prompt`, with the file registry the
 * object updates in place.
 *
 * The filesystem under the output directory is the value `Disk`: the text of
 * each file by its relative path, and the set of paths given to
 * `os.makedirs`. Whether an operation on it raises is not derived from that
 * value: each write and each directory creation takes its outcome as an
 * input, `None` for success or `Some(e)` for an exception whose text is `e`.
 */
module Generator {
  import opened Options
  import opened Text
  import opened OrderedMaps
  import opened CodeBlocks
  import opened Structure
  import opened Paths
  import opened Prompt

  /** The output directory: file contents by relative path, and the directories made. */
  datatype Disk = Disk(files: map<string, string>, dirs: set<string>)

  /** The `i`-th filesystem outcome of a batch; operations past the end of the list succeed. */
  function Fault(faults: seq<Option<string>>, i: nat): Option<string> {
    if i < |faults| then faults[i] else None
  }

  /** The registry's summary of a file written with `code`. */
  function SizeInfo(code: string): string {
    "File created: " + NatToString(|code|) + " characters"
  }

  function SkipMessage(path: string): string {
    "File " + path + " already exists with same content, skipping."
  }

  function WroteMessage(path: string): string {
    "Successfully wrote file: " + path
  }

  function WriteErrorMessage(path: string, error: string): string {
    "Error writing file " + path + ": " + error
  }

  /** The message `create_directories` gives for one directory. */
  function DirMessage(dir: string, fault: Option<string>): string {
    match fault
    case None => "Created directory: " + dir
    case Some(e) => "Error creating directory " + dir + ": " + e
  }

  /** Every registry entry names a file on disk and records that file's length. */
  ghost predicate Describes(disk: Disk, registry: Registry) {
    forall p :: p in registry.entries ==> p in disk.files && registry.entries[p] == SizeInfo(disk.files[p])
  }

  /** The registry is a well-formed ordered dictionary whose entries describe the disk. */
  ghost predicate Consistent(disk: Disk, registry: Registry) {
    registry.Valid() && Describes(disk, registry)
  }

  // ---------------------------------------------------------------------------
  // write_file

  /** The result of one `write_file` call: the new disk and registry, and the returned pair. */
  datatype Write = Write(disk: Disk, registry: Registry, success: bool, message: string)

  /**
   * What `open(path, 'r', encoding='utf-8').read()` returns for a file holding
   * `text`: reading in text mode turns each `\r\n` and each lone `\r` into
   * `\n`, so no carriage return survives and text without one comes back
   * as it is.
   */
  function ReadBack(text: string): (r: string)
    ensures '\r' !in r
    ensures '\r' !in text ==> r == text
    ensures |r| <= |text|
    decreases |text|
  {
    if text == [] then []
    else if text[0] == '\r' then
      "\n" + ReadBack(if |text| > 1 && text[1] == '\n' then text[2..] else text[1..])
    else
      assert '\r' !in text ==> '\r' !in text[1..] by {
        assert forall c :: c in text[1..] ==> c in text;
      }
      [text[0]] + ReadBack(text[1..])
  }

  /** The skip test of `write_file`: the file exists and reads back as exactly `code`. */
  predicate ReadsAs(disk: Disk, path: string, code: string) {
    path in disk.files && ReadBack(disk.files[path]) == code
  }

  /**
   * `write_file` once the path is cleaned: on an exception report it and
   * change nothing; otherwise make the parent directory, skip the write when
   * the file already reads back as `code`, and else store `code` and record
   * its size in the registry.
   */
  function Store(disk: Disk, registry: Registry, path: string, code: string, fault: Option<string>): Write {
    match fault
    case Some(e) => Write(disk, registry, false, WriteErrorMessage(path, e))
    case None =>
      var made := disk.(dirs := disk.dirs + {ParentDir(path)});
      if ReadsAs(disk, path, code) then
        Write(made, registry, true, SkipMessage(path))
      else
        Write(made.(files := disk.files[path := code]), registry.Put(path, SizeInfo(code)), true, WroteMessage(path))
  }

  /** `write_file(file_path, code)`: clean the path, then store. */
  function WriteStep(disk: Disk, registry: Registry, filePath: string, code: string, fault: Option<string>): Write {
    Store(disk, registry, Sanitize(filePath), code, fault)
  }

  /** The registry summary determines the length written. */
  lemma SizeInfoDeterminesLength(a: string, b: string)
    requires SizeInfo(a) == SizeInfo(b)
    ensures |a| == |b|
  {
    var prefix, suffix := "File created: ", " characters";
    var na, nb := NatToString(|a|), NatToString(|b|);
    assert |na| == |nb|;
    assert na == SizeInfo(a)[|prefix|..|prefix| + |na|];
    assert nb == SizeInfo(b)[|prefix|..|prefix| + |nb|];
    DecimalRoundTrip(|a|);
    DecimalRoundTrip(|b|);
  }

  /** The skip and write messages can be told apart. */
  lemma MessagesDistinct(p: string, q: string)
    ensures SkipMessage(p) != WroteMessage(q)
  {
    assert SkipMessage(p)[0] == 'F';
    assert WroteMessage(q)[0] == 'S';
  }

  /**
   * Without an exception `write_file` succeeds; it skips (and reports so)
   * exactly when the file already exists and reads back as `code`, in which
   * case no file and no registry entry changes; otherwise the file holds
   * `code` afterwards, its registry entry records `|code|` characters, and no
   * other file or entry changes. Either way the parent directory is made.
   */
  lemma WriteOutcome(disk: Disk, registry: Registry, path: string, code: string)
    requires registry.Valid()
    ensures var r := Store(disk, registry, path, code, None);
      var same := path in disk.files && ReadBack(disk.files[path]) == code;
      && r.success
      && (r.message == SkipMessage(path) <==> same)
      && (same ==> r.disk.files == disk.files && r.registry == registry)
      && (!same ==> r.message == WroteMessage(path) && r.disk.files[path] == code)
      && r.disk.files.Keys == disk.files.Keys + {path}
      && ReadBack(r.disk.files[path]) == ReadBack(code)
      && r.disk.dirs == disk.dirs + {ParentDir(path)}
      && (forall q :: q in disk.files && q != path ==> r.disk.files[q] == disk.files[q])
      && (!same ==> path in r.registry.entries && r.registry.entries[path] == SizeInfo(code))
      && (forall q :: q != path ==> (q in r.registry.entries <==> q in registry.entries))
      && (forall q :: q != path && q in registry.entries ==> r.registry.entries[q] == registry.entries[q])
  {
    MessagesDistinct(path, path);
    PutSpec(registry, path, SizeInfo(code));
  }

  /** An exception leaves disk and registry as they were and reports failure. */
  lemma WriteFailure(disk: Disk, registry: Registry, path: string, code: string, error: string)
    ensures var r := Store(disk, registry, path, code, Some(error));
      !r.success && r.disk == disk && r.registry == registry
      && r.message == WriteErrorMessage(path, error)
  {
  }

  /**
   * Writing the same code without a carriage return to the same path twice
   * performs one write: the second call reports the skip and changes nothing.
   */
  lemma WriteTwiceWritesOnce(disk: Disk, registry: Registry, path: string, code: string)
    requires '\r' !in code
    ensures var first := Store(disk, registry, path, code, None);
      var second := Store(first.disk, first.registry, path, code, None);
      && second.success
      && second.message == SkipMessage(path)
      && second.disk == first.disk
      && second.registry == first.registry
  {
  }

  /**
   * Code holding a carriage return never reads back as itself, so writing it
   * twice writes it twice: the second call reports a fresh write.
   */
  lemma CarriageReturnRewritten(disk: Disk, registry: Registry, path: string, code: string)
    requires '\r' in code
    ensures var first := Store(disk, registry, path, code, None);
      var second := Store(first.disk, first.registry, path, code, None);
      && first.message == WroteMessage(path)
      && second.message == WroteMessage(path)
      && second.disk.files == first.disk.files
  {
  }

  /**
   * A file holding `x\r\n` reads back as `x\n`, so writing `x\n` over it is
   * skipped and the file keeps its `\r\n`.
   */
  lemma CrLfFileSkipped(registry: Registry)
    ensures var disk := Disk(map["a.py" := "x\r\n"], {});
      var r := Store(disk, registry, "a.py", "x\n", None);
      r.message == SkipMessage("a.py") && r.disk.files["a.py"] == "x\r\n" && r.registry == registry
  {
    var text: string := "x\r\n";
    assert text[1..][0] == '\r' && text[1..][1] == '\n' && text[1..][2..] == [];
    assert ReadBack(text[1..]) == "\n";
    assert ReadBack(text) == "x\n";
  }

  /**
   * `write_file` keeps the registry a well-formed ordered dictionary whose
   * entries describe the files on disk; the only key it can add is the
   * cleaned path, and it adds it last.
   */
  lemma WriteKeepsRegistry(disk: Disk, registry: Registry, path: string, code: string, fault: Option<string>)
    requires Consistent(disk, registry)
    ensures var r := Store(disk, registry, path, code, fault);
      && Consistent(r.disk, r.registry)
      && (r.registry.keys == registry.keys || r.registry.keys == registry.keys + [path])
  {
    PutSpec(registry, path, SizeInfo(code));
  }

  // ---------------------------------------------------------------------------
  // create_directories

  /** The result of `create_directories`: the new disk and the messages. */
  datatype DirBatch = DirBatch(disk: Disk, messages: seq<string>)

  /** The cleaned candidates that are not taken for files, in input order. */
  function Targets(directories: seq<string>): seq<string>
    decreases |directories|
  {
    if directories == [] then []
    else
      var dir := DirTarget(directories[0]);
      (if LooksLikeFile(dir) then [] else [dir]) + Targets(directories[1..])
  }

  /** No target has a dot after its last `/` or after its last `\`. */
  lemma {:induction false} TargetsAreNotFiles(directories: seq<string>)
    ensures forall t :: t in Targets(directories) ==> !LooksLikeFile(t)
    decreases |directories|
  {
    if directories != [] {
      TargetsAreNotFiles(directories[1..]);
    }
  }

  /** The `os.makedirs` calls on the targets, the `k`-th taking outcome `Fault(faults, k)`. */
  function Make(disk: Disk, targets: seq<string>, faults: seq<Option<string>>, k: nat): DirBatch
    decreases |targets|
  {
    if targets == [] then DirBatch(disk, [])
    else
      var fault := Fault(faults, k);
      var made := if fault.None? then disk.(dirs := disk.dirs + {targets[0]}) else disk;
      var rest := Make(made, targets[1..], faults, k + 1);
      DirBatch(rest.disk, [DirMessage(targets[0], fault)] + rest.messages)
  }

  /** `Targets` from index `i` on, one candidate unfolded. */
  lemma TargetsStep(directories: seq<string>, i: nat)
    requires i < |directories|
    ensures var dir := DirTarget(directories[i]);
      Targets(directories[i..]) == (if LooksLikeFile(dir) then [] else [dir]) + Targets(directories[i + 1..])
  {
    assert directories[i..][1..] == directories[i + 1..];
  }

  /**
   * The `create_directories` loop before candidate `i`: the disk and messages
   * so far, followed by the calls on the remaining targets, add up to `result`.
   */
  predicate DirsPending(result: DirBatch, directories: seq<string>, faults: seq<Option<string>>,
                        i: nat, disk: Disk, messages: seq<string>, k: nat)
    requires i <= |directories|
  {
    var rest := Make(disk, Targets(directories[i..]), faults, k);
    result == DirBatch(rest.disk, messages + rest.messages)
  }

  /**
   * One step of the `create_directories` loop: a candidate that looks like a
   * file is skipped; otherwise the `k`-th call is made on it and reported.
   */
  lemma DirLoopStep(result: DirBatch, directories: seq<string>, faults: seq<Option<string>>,
                    i: nat, disk: Disk, messages: seq<string>, k: nat)
    requires i < |directories| && DirsPending(result, directories, faults, i, disk, messages, k)
    ensures var dir := DirTarget(directories[i]);
      var fault := Fault(faults, k);
      var made := if fault.None? then disk.(dirs := disk.dirs + {dir}) else disk;
      if LooksLikeFile(dir) then DirsPending(result, directories, faults, i + 1, disk, messages, k)
      else DirsPending(result, directories, faults, i + 1, made, messages + [DirMessage(dir, fault)], k + 1)
  {
    TargetsStep(directories, i);
    var dir := DirTarget(directories[i]);
    var later := Targets(directories[i + 1..]);
    if !LooksLikeFile(dir) {
      var fault := Fault(faults, k);
      var made := if fault.None? then disk.(dirs := disk.dirs + {dir}) else disk;
      var rest := Make(made, later, faults, k + 1);
      MakeCons(disk, dir, later, faults, k);
      AppendAssoc(messages, DirMessage(dir, fault), rest.messages);
    } else {
      assert Targets(directories[i..]) == later;
    }
  }

  /** The first directory call, then the rest. */
  lemma MakeCons(disk: Disk, dir: string, later: seq<string>, faults: seq<Option<string>>, k: nat)
    ensures var fault := Fault(faults, k);
      var made := if fault.None? then disk.(dirs := disk.dirs + {dir}) else disk;
      var rest := Make(made, later, faults, k + 1);
      Make(disk, [dir] + later, faults, k) == DirBatch(rest.disk, [DirMessage(dir, fault)] + rest.messages)
  {
    assert ([dir] + later)[0] == dir && ([dir] + later)[1..] == later;
  }

  /** Proof helper: one message moved from the pending calls to the messages so far. */
  lemma AppendAssoc<T>(done: seq<T>, x: T, rest: seq<T>)
    ensures done + ([x] + rest) == done + [x] + rest
  {
  }

  /**
   * `create_directories(directories)`: each candidate is stripped and
   * unquoted, skipped when it looks like a file, and otherwise made and
   * reported.
   */
  function MakeDirs(disk: Disk, directories: seq<string>, faults: seq<Option<string>>): DirBatch {
    Make(disk, Targets(directories), faults, 0)
  }

  /**
   * The directory calls give exactly one message per target, in order, the
   * `j`-th reporting the `j`-th target with the outcome of the `j`-th call,
   * and no file changes.
   */
  lemma {:induction false} MakeMessages(disk: Disk, targets: seq<string>, faults: seq<Option<string>>, k: nat)
    ensures var r := Make(disk, targets, faults, k);
      && |r.messages| == |targets|
      && (forall j :: 0 <= j < |targets| ==> r.messages[j] == DirMessage(targets[j], Fault(faults, k + j)))
      && r.disk.files == disk.files
  {
    MakeShape(disk, targets, faults, k);
    forall j | 0 <= j < |targets|
      ensures Make(disk, targets, faults, k).messages[j] == DirMessage(targets[j], Fault(faults, k + j))
    {
      MakeMessageAt(disk, targets, faults, k, j);
    }
  }

  /** The directory calls give one message per target and change no file. */
  lemma {:induction false} MakeShape(disk: Disk, targets: seq<string>, faults: seq<Option<string>>, k: nat)
    ensures var r := Make(disk, targets, faults, k);
      |r.messages| == |targets| && r.disk.files == disk.files
    decreases |targets|
  {
    if targets != [] {
      var fault := Fault(faults, k);
      var made := if fault.None? then disk.(dirs := disk.dirs + {targets[0]}) else disk;
      MakeShape(made, targets[1..], faults, k + 1);
    }
  }

  /** The `j`-th directory message reports the `j`-th target with the outcome of the `j`-th call. */
  lemma {:induction false} MakeMessageAt(disk: Disk, targets: seq<string>, faults: seq<Option<string>>, k: nat, j: nat)
    requires j < |targets|
    ensures var r := Make(disk, targets, faults, k);
      j < |r.messages| && r.messages[j] == DirMessage(targets[j], Fault(faults, k + j))
    decreases j
  {
    var fault := Fault(faults, k);
    var made := if fault.None? then disk.(dirs := disk.dirs + {targets[0]}) else disk;
    var rest := Make(made, targets[1..], faults, k + 1);
    var r := Make(disk, targets, faults, k);
    assert r.messages == [DirMessage(targets[0], fault)] + rest.messages;
    if j > 0 {
      MakeMessageAt(made, targets[1..], faults, k + 1, j - 1);
      ShiftedMessage(r.messages, DirMessage(targets[0], fault), rest.messages, j);
      assert targets[1..][j - 1] == targets[j];
      assert k + 1 + (j - 1) == k + j;
    }
  }

  /** Proof helper: the `j`-th message of a run that starts with `first` is the `j - 1`-th of what follows. */
  lemma ShiftedMessage(messages: seq<string>, first: string, rest: seq<string>, j: nat)
    requires messages == [first] + rest && 0 < j < |messages|
    ensures messages[j] == rest[j - 1]
  {
  }

  /** The targets whose `os.makedirs` call succeeds, the `j`-th call taking outcome `Fault(faults, k + j)`. */
  ghost function Succeeded(targets: seq<string>, faults: seq<Option<string>>, k: nat): set<string> {
    set j | 0 <= j < |targets| && Fault(faults, k + j).None? :: targets[j]
  }

  /** The directories afterwards are those before plus exactly the targets whose call succeeded. */
  lemma {:induction false} MakeAdds(disk: Disk, targets: seq<string>, faults: seq<Option<string>>, k: nat)
    ensures Make(disk, targets, faults, k).disk.dirs == disk.dirs + Succeeded(targets, faults, k)
    decreases |targets|
  {
    if targets != [] {
      var dir, tail := targets[0], targets[1..];
      var fault := Fault(faults, k);
      var made := if fault.None? then disk.(dirs := disk.dirs + {dir}) else disk;
      MakeAdds(made, tail, faults, k + 1);
      var restSet := set j | 0 <= j < |tail| && Fault(faults, k + 1 + j).None? :: tail[j];
      var allSet := set j | 0 <= j < |targets| && Fault(faults, k + j).None? :: targets[j];
      var first: set<string> := if fault.None? then {dir} else {};
      forall x | x in allSet ensures x in first + restSet {
        var j :| 0 <= j < |targets| && Fault(faults, k + j).None? && targets[j] == x;
        if j > 0 {
          assert tail[j - 1] == x && Fault(faults, k + 1 + (j - 1)).None?;
        }
      }
      forall j | 0 <= j < |tail| && Fault(faults, k + 1 + j).None? ensures tail[j] in allSet {
        assert targets[j + 1] == tail[j] && k + (j + 1) == k + 1 + j;
      }
      if fault.None? {
        assert targets[0] == dir && Fault(faults, k + 0).None?;
      }
      assert allSet == first + restSet;
    }
  }

  // ---------------------------------------------------------------------------
  // process_response

  /** The state and messages after a batch of writes. */
  datatype Batch = Batch(disk: Disk, registry: Registry, messages: seq<string>)

  /** What one write reports about `path` given its outcome. */
  predicate ReportsOn(message: string, path: string, fault: Option<string>) {
    match fault
    case None => message == SkipMessage(path) || message == WroteMessage(path)
    case Some(e) => message == WriteErrorMessage(path, e)
  }

  /** Each write reports on the path it was given, as its outcome says. */
  lemma StoreReports(disk: Disk, registry: Registry, path: string, code: string, fault: Option<string>)
    ensures ReportsOn(Store(disk, registry, path, code, fault).message, path, fault)
  {
  }

  /** The writes `process_response` asks for: each block with a path and code, its path cleaned. */
  function Writes(blocks: seq<Block>): seq<Block>
    decreases |blocks|
  {
    if blocks == [] then []
    else
      var b := blocks[0];
      (if b.path != "" && b.code != "" then [Block(Sanitize(b.path), b.code)] else []) + Writes(blocks[1..])
  }

  /** Over blocks that all have a path and code, there is one write per block. */
  lemma {:induction false} WritesLength(blocks: seq<Block>)
    requires forall b :: b in blocks ==> b.path != "" && b.code != ""
    ensures |Writes(blocks)| == |blocks|
    decreases |blocks|
  {
    if blocks != [] {
      assert forall x :: x in blocks[1..] ==> x in blocks;
      WritesLength(blocks[1..]);
    }
  }

  /** Over blocks that all have a path and code, the `j`-th write is the `j`-th block with its path cleaned. */
  lemma {:induction false} WritesInOrder(blocks: seq<Block>, j: nat)
    requires forall b :: b in blocks ==> b.path != "" && b.code != ""
    requires j < |blocks|
    ensures j < |Writes(blocks)| && Writes(blocks)[j] == Block(Sanitize(blocks[j].path), blocks[j].code)
    decreases |blocks|
  {
    var b, tail := blocks[0], blocks[1..];
    assert b in blocks;
    assert Writes(blocks) == [Block(Sanitize(b.path), b.code)] + Writes(tail);
    if j > 0 {
      assert forall x :: x in tail ==> x in blocks;
      WritesInOrder(tail, j - 1);
      assert tail[j - 1] == blocks[j];
    }
  }

  /** The `write_file` calls, in order, the `k`-th taking outcome `Fault(faults, k)`. */
  function StoreAll(disk: Disk, registry: Registry, writes: seq<Block>, faults: seq<Option<string>>, k: nat): Batch
    decreases |writes|
  {
    if writes == [] then Batch(disk, registry, [])
    else
      var w := Store(disk, registry, writes[0].path, writes[0].code, Fault(faults, k));
      var rest := StoreAll(w.disk, w.registry, writes[1..], faults, k + 1);
      Batch(rest.disk, rest.registry, [w.message] + rest.messages)
  }

  /** `Writes` from index `i` on, one block unfolded. */
  lemma WritesStep(blocks: seq<Block>, i: nat)
    requires i < |blocks|
    ensures var b := blocks[i];
      Writes(blocks[i..]) == (if b.path != "" && b.code != "" then [Block(Sanitize(b.path), b.code)] else []) + Writes(blocks[i + 1..])
  {
    assert blocks[i..][1..] == blocks[i + 1..];
  }

  /**
   * One step of the write loop of `process_response`: after the write of
   * `w`, the messages so far plus the later writes still add up to the same
   * result.
   */
  lemma StoreLoopStep(result: Batch, done: seq<string>, disk: Disk, registry: Registry, messages: seq<string>,
                      w: Block, later: seq<Block>, faults: seq<Option<string>>, k: nat)
    requires var rest := StoreAll(disk, registry, [w] + later, faults, k);
      result.disk == rest.disk && result.registry == rest.registry && done + result.messages == messages + rest.messages
    ensures var s := Store(disk, registry, w.path, w.code, Fault(faults, k));
      var rest := StoreAll(s.disk, s.registry, later, faults, k + 1);
      result.disk == rest.disk && result.registry == rest.registry && done + result.messages == messages + [s.message] + rest.messages
  {
    assert ([w] + later)[1..] == later;
  }

  /** The write loop of `process_response`. */
  function WriteAll(disk: Disk, registry: Registry, blocks: seq<Block>, faults: seq<Option<string>>): Batch {
    StoreAll(disk, registry, Writes(blocks), faults, 0)
  }

  /**
   * A run of writes gives one message per write, in order, each about that
   * write's path, and keeps the registry well formed and in step with the
   * disk.
   */
  lemma {:induction false} StoreAllMessages(disk: Disk, registry: Registry, writes: seq<Block>, faults: seq<Option<string>>, k: nat)
    requires Consistent(disk, registry)
    ensures var r := StoreAll(disk, registry, writes, faults, k);
      && |r.messages| == |writes|
      && (forall j :: 0 <= j < |writes| ==> ReportsOn(r.messages[j], writes[j].path, Fault(faults, k + j)))
      && Consistent(r.disk, r.registry)
  {
    StoreAllShape(disk, registry, writes, faults, k);
    forall j | 0 <= j < |writes|
      ensures ReportsOn(StoreAll(disk, registry, writes, faults, k).messages[j], writes[j].path, Fault(faults, k + j))
    {
      StoreMessageAt(disk, registry, writes, faults, k, j);
    }
  }

  /** A run of writes gives one message per write and keeps the registry in step with the disk. */
  lemma {:induction false} StoreAllShape(disk: Disk, registry: Registry, writes: seq<Block>, faults: seq<Option<string>>, k: nat)
    requires Consistent(disk, registry)
    ensures var r := StoreAll(disk, registry, writes, faults, k);
      |r.messages| == |writes| && Consistent(r.disk, r.registry)
    decreases |writes|
  {
    if writes != [] {
      var b := writes[0];
      var w := Store(disk, registry, b.path, b.code, Fault(faults, k));
      WriteKeepsRegistry(disk, registry, b.path, b.code, Fault(faults, k));
      StoreAllShape(w.disk, w.registry, writes[1..], faults, k + 1);
    }
  }

  /** The `j`-th message of a run of writes reports on the `j`-th write's path. */
  lemma {:induction false} StoreMessageAt(disk: Disk, registry: Registry, writes: seq<Block>, faults: seq<Option<string>>, k: nat, j: nat)
    requires j < |writes|
    ensures var r := StoreAll(disk, registry, writes, faults, k);
      j < |r.messages| && ReportsOn(r.messages[j], writes[j].path, Fault(faults, k + j))
    decreases j
  {
    var b := writes[0];
    var w := Store(disk, registry, b.path, b.code, Fault(faults, k));
    var rest := StoreAll(w.disk, w.registry, writes[1..], faults, k + 1);
    var r := StoreAll(disk, registry, writes, faults, k);
    assert r.messages == [w.message] + rest.messages;
    if j == 0 {
      StoreReports(disk, registry, b.path, b.code, Fault(faults, k));
    } else {
      StoreMessageAt(w.disk, w.registry, writes[1..], faults, k + 1, j - 1);
      ShiftedMessage(r.messages, w.message, rest.messages, j);
      assert writes[1..][j - 1] == writes[j];
      assert k + 1 + (j - 1) == k + j;
    }
  }

  /** The `j`-th write of a run succeeds, and no later write that succeeds names its path. */
  predicate LastOkWrite(writes: seq<Block>, faults: seq<Option<string>>, k: nat, j: nat) {
    && j < |writes| && Fault(faults, k + j).None?
    && forall i :: j < i < |writes| && Fault(faults, k + i).None? ==> writes[i].path != writes[j].path
  }

  /** Some write of the run that succeeds names `q`. */
  predicate NamedByOkWrite(writes: seq<Block>, faults: seq<Option<string>>, k: nat, q: string) {
    exists j :: 0 <= j < |writes| && Fault(faults, k + j).None? && writes[j].path == q
  }

  /**
   * A file that a write of `code` left: it holds `code` itself, or, when the
   * write was skipped, text that reads back as `code`.
   */
  predicate HoldsCode(text: string, code: string) {
    text == code || ReadBack(text) == code
  }

  /** A file left by a write of code holding a carriage return holds exactly that code. */
  lemma HoldsCodeExact(text: string, code: string)
    requires HoldsCode(text, code) && '\r' in code
    ensures text == code
  {
  }

  /**
   * After a run of writes, each file the last successful write to its path
   * named holds that write's code, or reads back as it when that write was
   * skipped.
   */
  lemma {:induction false} StoreAllLastWrite(disk: Disk, registry: Registry, writes: seq<Block>, faults: seq<Option<string>>, k: nat, j: nat)
    requires LastOkWrite(writes, faults, k, j)
    ensures var r := StoreAll(disk, registry, writes, faults, k);
      writes[j].path in r.disk.files && HoldsCode(r.disk.files[writes[j].path], writes[j].code)
    decreases j
  {
    var b := writes[0];
    var w := Store(disk, registry, b.path, b.code, Fault(faults, k));
    var tail := writes[1..];
    if j == 0 {
      assert w.disk.files.Keys == disk.files.Keys + {b.path} && HoldsCode(w.disk.files[b.path], b.code) by {
        if !ReadsAs(disk, b.path, b.code) {
          assert w.disk.files == disk.files[b.path := b.code];
        }
      }
      assert !NamedByOkWrite(tail, faults, k + 1, b.path) by {
        forall i | 0 <= i < |tail| && Fault(faults, k + 1 + i).None? ensures tail[i].path != b.path {
          assert writes[i + 1] == tail[i] && k + (i + 1) == k + 1 + i;
        }
      }
      StoreAllUntouched(w.disk, w.registry, tail, faults, k + 1, b.path);
    } else {
      assert LastOkWrite(tail, faults, k + 1, j - 1) by {
        assert tail[j - 1] == writes[j] && k + 1 + (j - 1) == k + j;
        forall i | j - 1 < i < |tail| && Fault(faults, k + 1 + i).None? ensures tail[i].path != tail[j - 1].path {
          assert writes[i + 1] == tail[i] && k + (i + 1) == k + 1 + i;
        }
      }
      StoreAllLastWrite(w.disk, w.registry, tail, faults, k + 1, j - 1);
    }
  }

  /** A file that no successful write of the run names is left as it was. */
  lemma {:induction false} StoreAllUntouched(disk: Disk, registry: Registry, writes: seq<Block>, faults: seq<Option<string>>, k: nat, q: string)
    requires q in disk.files && !NamedByOkWrite(writes, faults, k, q)
    ensures var r := StoreAll(disk, registry, writes, faults, k);
      q in r.disk.files && r.disk.files[q] == disk.files[q]
    decreases |writes|
  {
    if writes != [] {
      var b := writes[0];
      var w := Store(disk, registry, b.path, b.code, Fault(faults, k));
      var tail := writes[1..];
      assert Fault(faults, k + 0).None? ==> b.path != q;
      assert q in w.disk.files && w.disk.files[q] == disk.files[q];
      assert !NamedByOkWrite(tail, faults, k + 1, q) by {
        forall i | 0 <= i < |tail| && Fault(faults, k + 1 + i).None? ensures tail[i].path != q {
          assert writes[i + 1] == tail[i] && k + (i + 1) == k + 1 + i;
        }
      }
      StoreAllUntouched(w.disk, w.registry, tail, faults, k + 1, q);
    }
  }

  /** After a run of writes, every file either was there before or is named by a successful write. */
  lemma {:induction false} StoreAllOnlyNamed(disk: Disk, registry: Registry, writes: seq<Block>, faults: seq<Option<string>>, k: nat, q: string)
    requires q in StoreAll(disk, registry, writes, faults, k).disk.files
    ensures q in disk.files || NamedByOkWrite(writes, faults, k, q)
    decreases |writes|
  {
    if writes != [] {
      var b := writes[0];
      var w := Store(disk, registry, b.path, b.code, Fault(faults, k));
      var tail := writes[1..];
      StoreAllOnlyNamed(w.disk, w.registry, tail, faults, k + 1, q);
      if q !in disk.files {
        if q in w.disk.files {
          assert q == b.path && Fault(faults, k + 0).None?;
        } else {
          var i :| 0 <= i < |tail| && Fault(faults, k + 1 + i).None? && tail[i].path == q;
          assert writes[i + 1] == tail[i] && k + (i + 1) == k + 1 + i;
        }
      }
    }
  }

  /** The parent directories of the writes whose call raises nothing. */
  ghost function Parents(writes: seq<Block>, faults: seq<Option<string>>, k: nat): set<string> {
    set j | 0 <= j < |writes| && Fault(faults, k + j).None? :: ParentDir(writes[j].path)
  }

  /** A run of writes adds exactly the parent directory of each write that raises nothing, skipped or not. */
  lemma {:induction false} StoreAllDirs(disk: Disk, registry: Registry, writes: seq<Block>, faults: seq<Option<string>>, k: nat)
    ensures StoreAll(disk, registry, writes, faults, k).disk.dirs == disk.dirs + Parents(writes, faults, k)
    decreases |writes|
  {
    if writes != [] {
      var b := writes[0];
      var w := Store(disk, registry, b.path, b.code, Fault(faults, k));
      StoreAllDirs(w.disk, w.registry, writes[1..], faults, k + 1);
      ParentsCons(writes, faults, k);
    }
  }

  /** The parents of a run of writes: the first write's, when it raises nothing, and the rest's. */
  lemma ParentsCons(writes: seq<Block>, faults: seq<Option<string>>, k: nat)
    requires writes != []
    ensures Parents(writes, faults, k)
      == (if Fault(faults, k).None? then {ParentDir(writes[0].path)} else {}) + Parents(writes[1..], faults, k + 1)
  {
    if Fault(faults, k).None? {
      ParentsOfFirst(writes, faults, k);
    }
    ParentsOfRest(writes, faults, k);
    ParentsCovered(writes, faults, k);
  }

  /** Proof helper: the first write's parent, when it raises nothing, is among the parents. */
  lemma ParentsOfFirst(writes: seq<Block>, faults: seq<Option<string>>, k: nat)
    requires writes != [] && Fault(faults, k).None?
    ensures ParentDir(writes[0].path) in Parents(writes, faults, k)
  {
    assert Fault(faults, k + 0).None?;
  }

  /** Proof helper: the later writes' parents are among the parents. */
  lemma ParentsOfRest(writes: seq<Block>, faults: seq<Option<string>>, k: nat)
    requires writes != []
    ensures Parents(writes[1..], faults, k + 1) <= Parents(writes, faults, k)
  {
    var tail := writes[1..];
    forall j | 0 <= j < |tail| && Fault(faults, k + 1 + j).None? ensures ParentDir(tail[j].path) in Parents(writes, faults, k) {
      assert writes[j + 1] == tail[j] && k + (j + 1) == k + 1 + j;
    }
  }

  /** Proof helper: every parent is the first write's or a later write's. */
  lemma ParentsCovered(writes: seq<Block>, faults: seq<Option<string>>, k: nat)
    requires writes != []
    ensures forall x :: x in Parents(writes, faults, k) ==>
      (Fault(faults, k).None? && x == ParentDir(writes[0].path)) || x in Parents(writes[1..], faults, k + 1)
  {
    var tail := writes[1..];
    forall x | x in Parents(writes, faults, k)
      ensures (Fault(faults, k).None? && x == ParentDir(writes[0].path)) || x in Parents(tail, faults, k + 1)
    {
      var j :| 0 <= j < |writes| && Fault(faults, k + j).None? && ParentDir(writes[j].path) == x;
      if j > 0 {
        assert tail[j - 1] == writes[j] && Fault(faults, k + 1 + (j - 1)).None?;
      }
    }
  }

  /** The keys of an ordered dictionary after assigning each of `paths` in turn: new keys are appended once. */
  function FirstSeen(keys: seq<string>, paths: seq<string>): seq<string>
    decreases |paths|
  {
    if paths == [] then keys
    else FirstSeen(if paths[0] in keys then keys else keys + [paths[0]], paths[1..])
  }

  /** The paths of the writes reported as fresh writes, in order. */
  function WrotePaths(writes: seq<Block>, messages: seq<string>): seq<string>
    requires |messages| == |writes|
    decreases |writes|
  {
    if writes == [] then []
    else (if messages[0] == WroteMessage(writes[0].path) then [writes[0].path] else []) + WrotePaths(writes[1..], messages[1..])
  }

  /**
   * After a run of writes the registry keys are the old keys followed by each
   * freshly written path not yet registered, in the order of its first
   * `Successfully wrote file` message.
   */
  lemma {:induction false} StoreAllKeys(disk: Disk, registry: Registry, writes: seq<Block>, faults: seq<Option<string>>, k: nat)
    requires Consistent(disk, registry)
    ensures var r := StoreAll(disk, registry, writes, faults, k);
      |r.messages| == |writes| && r.registry.keys == FirstSeen(registry.keys, WrotePaths(writes, r.messages))
    decreases |writes|
  {
    StoreAllShape(disk, registry, writes, faults, k);
    if writes != [] {
      var b := writes[0];
      var w := Store(disk, registry, b.path, b.code, Fault(faults, k));
      var tail := writes[1..];
      var rest := StoreAll(w.disk, w.registry, tail, faults, k + 1);
      var r := StoreAll(disk, registry, writes, faults, k);
      WriteKeepsRegistry(disk, registry, b.path, b.code, Fault(faults, k));
      StoreAllKeys(w.disk, w.registry, tail, faults, k + 1);
      StoreStepKeys(disk, registry, b.path, b.code, Fault(faults, k));
      assert r.messages == [w.message] + rest.messages;
      assert r.messages[1..] == rest.messages;
      var later := WrotePaths(tail, rest.messages);
      if w.message == WroteMessage(b.path) {
        assert WrotePaths(writes, r.messages) == [b.path] + later;
        assert ([b.path] + later)[1..] == later;
      } else {
        assert WrotePaths(writes, r.messages) == later;
      }
    }
  }

  /** One write adds its path to the registry keys exactly when it reports a fresh write of a path not yet registered. */
  lemma StoreStepKeys(disk: Disk, registry: Registry, path: string, code: string, fault: Option<string>)
    requires Consistent(disk, registry)
    ensures var w := Store(disk, registry, path, code, fault);
      w.registry.keys == if w.message == WroteMessage(path) then FirstSeen(registry.keys, [path]) else registry.keys
  {
    PutSpec(registry, path, SizeInfo(code));
    MessagesDistinct(path, path);
    var w := Store(disk, registry, path, code, fault);
    if fault.Some? {
      assert w.message[0] == 'E' && WroteMessage(path)[0] == 'S';
    }
    assert [path][1..] == [];
  }

  /**
   * Over blocks that all have a path and code, the write loop gives one
   * message per block, in block order, each about that block's cleaned path,
   * and keeps the registry well formed and in step with the disk.
   */
  lemma WriteAllMessages(disk: Disk, registry: Registry, blocks: seq<Block>, faults: seq<Option<string>>)
    requires Consistent(disk, registry)
    requires forall b :: b in blocks ==> b.path != "" && b.code != ""
    ensures var r := WriteAll(disk, registry, blocks, faults);
      && |r.messages| == |blocks|
      && (forall j :: 0 <= j < |blocks| ==> ReportsOn(r.messages[j], Sanitize(blocks[j].path), Fault(faults, j)))
      && Consistent(r.disk, r.registry)
  {
    WritesLength(blocks);
    var writes := Writes(blocks);
    StoreAllShape(disk, registry, writes, faults, 0);
    var r := StoreAll(disk, registry, writes, faults, 0);
    forall j | 0 <= j < |blocks| ensures ReportsOn(r.messages[j], Sanitize(blocks[j].path), Fault(faults, j)) {
      WriteReportAt(disk, registry, blocks, faults, j);
    }
  }

  /** The `j`-th message of writing a response's blocks reports on the `j`-th block's cleaned path. */
  lemma WriteReportAt(disk: Disk, registry: Registry, blocks: seq<Block>, faults: seq<Option<string>>, j: nat)
    requires forall b :: b in blocks ==> b.path != "" && b.code != ""
    requires j < |blocks|
    ensures var r := WriteAll(disk, registry, blocks, faults);
      j < |r.messages| && ReportsOn(r.messages[j], Sanitize(blocks[j].path), Fault(faults, j))
  {
    var writes := Writes(blocks);
    WritesInOrder(blocks, j);
    StoreMessageAt(disk, registry, writes, faults, 0, j);
    assert writes[j].path == Sanitize(blocks[j].path);
  }

  /**
   * The work `process_response` does once the text is read: directories
   * first (only when there are candidates), then one write per code block.
   */
  function Pipeline(disk: Disk, registry: Registry, directories: seq<string>, blocks: seq<Block>,
                    dirFaults: seq<Option<string>>, fileFaults: seq<Option<string>>): Batch
  {
    var made := if |directories| > 0 then MakeDirs(disk, directories, dirFaults) else DirBatch(disk, []);
    var written := WriteAll(made.disk, registry, blocks, fileFaults);
    Batch(written.disk, written.registry, made.messages + written.messages)
  }

  /** `process_response(response_text)`: the structure candidates and the code blocks of the text, handled in turn. */
  ghost function ProcessSpec(disk: Disk, registry: Registry, responseText: string,
                             dirFaults: seq<Option<string>>, fileFaults: seq<Option<string>>): Batch
  {
    var lines := Split(responseText, '\n');
    Pipeline(disk, registry, Candidates(lines, |lines|), Blocks(lines), dirFaults, fileFaults)
  }

  /**
   * The messages of a response: one per directory target, in order, then one
   * per write, in order, each about that write's path and as its outcome
   * says.
   */
  predicate ReportsAll(messages: seq<string>, targets: seq<string>, writes: seq<Block>,
                       dirFaults: seq<Option<string>>, fileFaults: seq<Option<string>>)
  {
    && |messages| == |targets| + |writes|
    && (forall j :: 0 <= j < |targets| ==> messages[j] == DirMessage(targets[j], Fault(dirFaults, j)))
    && (forall j :: 0 <= j < |writes| ==> ReportsOn(messages[|targets| + j], writes[j].path, Fault(fileFaults, j)))
  }

  /** Directory messages followed by file messages, each reporting as it should, report as `ReportsAll` says. */
  lemma ReportsAllOfParts(dirMessages: seq<string>, fileMessages: seq<string>, targets: seq<string>, writes: seq<Block>,
                          dirFaults: seq<Option<string>>, fileFaults: seq<Option<string>>)
    requires |dirMessages| == |targets|
    requires forall j :: 0 <= j < |targets| ==> dirMessages[j] == DirMessage(targets[j], Fault(dirFaults, j))
    requires |fileMessages| == |writes|
    requires forall j :: 0 <= j < |writes| ==> ReportsOn(fileMessages[j], writes[j].path, Fault(fileFaults, j))
    ensures ReportsAll(dirMessages + fileMessages, targets, writes, dirFaults, fileFaults)
  {
    var all := dirMessages + fileMessages;
    forall j | 0 <= j < |writes| ensures all[|targets| + j] == fileMessages[j] {
    }
  }

  /** The directory calls followed by the writes report as `ReportsAll` says and keep the registry consistent. */
  lemma MakeThenStore(disk: Disk, registry: Registry, targets: seq<string>, writes: seq<Block>,
                      dirFaults: seq<Option<string>>, fileFaults: seq<Option<string>>)
    requires Consistent(disk, registry)
    ensures var made := Make(disk, targets, dirFaults, 0);
      var written := StoreAll(made.disk, registry, writes, fileFaults, 0);
      ReportsAll(made.messages + written.messages, targets, writes, dirFaults, fileFaults)
      && Consistent(written.disk, written.registry)
  {
    var made := Make(disk, targets, dirFaults, 0);
    MakeShape(disk, targets, dirFaults, 0);
    assert Consistent(made.disk, registry);
    StoreAllMessages(made.disk, registry, writes, fileFaults, 0);
    MakeMessages(disk, targets, dirFaults, 0);
    var written := StoreAll(made.disk, registry, writes, fileFaults, 0);
    ReportsAllOfParts(made.messages, written.messages, targets, writes, dirFaults, fileFaults);
  }

  /**
   * Once the text is read, the directory messages come first, one per
   * target, then one message per write; the registry stays consistent.
   */
  lemma PipelineMessages(disk: Disk, registry: Registry, directories: seq<string>, blocks: seq<Block>,
                         dirFaults: seq<Option<string>>, fileFaults: seq<Option<string>>)
    requires Consistent(disk, registry)
    ensures var r := Pipeline(disk, registry, directories, blocks, dirFaults, fileFaults);
      ReportsAll(r.messages, Targets(directories), Writes(blocks), dirFaults, fileFaults)
      && Consistent(r.disk, r.registry)
  {
    if |directories| == 0 {
      assert Targets(directories) == [];
    }
    MakeThenStore(disk, registry, Targets(directories), Writes(blocks), dirFaults, fileFaults);
  }

  /**
   * The messages of `process_response` are one per directory target, in
   * order, followed by one per parsed code block, in block order, each about
   * the write of that block (its cleaned path, by `WritesInOrder`); the
   * registry stays consistent with the disk.
   */
  lemma ProcessMessages(disk: Disk, registry: Registry, responseText: string,
                        dirFaults: seq<Option<string>>, fileFaults: seq<Option<string>>)
    requires Consistent(disk, registry)
    ensures var lines := Split(responseText, '\n');
      var r := ProcessSpec(disk, registry, responseText, dirFaults, fileFaults);
      && |Writes(Blocks(lines))| == |Blocks(lines)|
      && ReportsAll(r.messages, Targets(Candidates(lines, |lines|)), Writes(Blocks(lines)), dirFaults, fileFaults)
      && Consistent(r.disk, r.registry)
  {
    var lines := Split(responseText, '\n');
    BlocksHaveContent(lines);
    WritesLength(Blocks(lines));
    PipelineMessages(disk, registry, Candidates(lines, |lines|), Blocks(lines), dirFaults, fileFaults);
  }

  /**
   * The files `after` a run of writes over the files `before`: each file
   * that a successful write named last holds that write's code (or reads back
   * as it, when that write was skipped); a file no successful write names
   * keeps its text; no other file appears.
   */
  ghost predicate FilesAfter(before: map<string, string>, writes: seq<Block>, faults: seq<Option<string>>,
                             after: map<string, string>)
  {
    && (forall j: nat :: LastOkWrite(writes, faults, 0, j) ==>
          writes[j].path in after && HoldsCode(after[writes[j].path], writes[j].code))
    && (forall q :: q in before && !NamedByOkWrite(writes, faults, 0, q) ==> q in after && after[q] == before[q])
    && (forall q :: q in after ==> q in before || NamedByOkWrite(writes, faults, 0, q))
  }

  /**
   * A run of writes leaves the files `FilesAfter` describes, and grows the
   * registry keys by the freshly written paths in first-write order.
   */
  lemma StoreAllEffects(disk: Disk, registry: Registry, writes: seq<Block>, faults: seq<Option<string>>)
    requires Consistent(disk, registry)
    ensures var r := StoreAll(disk, registry, writes, faults, 0);
      && FilesAfter(disk.files, writes, faults, r.disk.files)
      && |r.messages| == |writes|
      && r.registry.keys == FirstSeen(registry.keys, WrotePaths(writes, r.messages))
  {
    var r := StoreAll(disk, registry, writes, faults, 0);
    StoreAllKeys(disk, registry, writes, faults, 0);
    forall j: nat | LastOkWrite(writes, faults, 0, j)
      ensures writes[j].path in r.disk.files && HoldsCode(r.disk.files[writes[j].path], writes[j].code)
    {
      StoreAllLastWrite(disk, registry, writes, faults, 0, j);
    }
    forall q | q in disk.files && !NamedByOkWrite(writes, faults, 0, q)
      ensures q in r.disk.files && r.disk.files[q] == disk.files[q]
    {
      StoreAllUntouched(disk, registry, writes, faults, 0, q);
    }
    forall q | q in r.disk.files ensures q in disk.files || NamedByOkWrite(writes, faults, 0, q) {
      StoreAllOnlyNamed(disk, registry, writes, faults, 0, q);
    }
  }

  /**
   * Once the text is read, the files are as `FilesAfter` the blocks' writes
   * says (making directories changes no file); the directories gained are the
   * targets whose call succeeded and the parents of the writes that raised
   * nothing; and the registry keys grow by the freshly written paths in
   * first-write order.
   */
  lemma PipelineEffects(disk: Disk, registry: Registry, directories: seq<string>, blocks: seq<Block>,
                        dirFaults: seq<Option<string>>, fileFaults: seq<Option<string>>)
    requires Consistent(disk, registry)
    ensures var writes := Writes(blocks);
      var n := |Targets(directories)|;
      var r := Pipeline(disk, registry, directories, blocks, dirFaults, fileFaults);
      && FilesAfter(disk.files, writes, fileFaults, r.disk.files)
      && r.disk.dirs == disk.dirs + Succeeded(Targets(directories), dirFaults, 0) + Parents(writes, fileFaults, 0)
      && |r.messages| == n + |writes|
      && r.registry.keys == FirstSeen(registry.keys, WrotePaths(writes, r.messages[n..]))
  {
    var writes := Writes(blocks);
    var made := if |directories| > 0 then MakeDirs(disk, directories, dirFaults) else DirBatch(disk, []);
    MakeShape(disk, Targets(directories), dirFaults, 0);
    MakeAdds(disk, Targets(directories), dirFaults, 0);
    if |directories| == 0 {
      assert Targets(directories) == [];
      assert Succeeded([], dirFaults, 0) == {};
    }
    assert made.disk.files == disk.files && |made.messages| == |Targets(directories)|;
    assert made.disk.dirs == disk.dirs + Succeeded(Targets(directories), dirFaults, 0);
    StoreAllDirs(made.disk, registry, writes, fileFaults, 0);
    assert Consistent(made.disk, registry);
    StoreAllEffects(made.disk, registry, writes, fileFaults);
    var written := StoreAll(made.disk, registry, writes, fileFaults, 0);
    assert (made.messages + written.messages)[|made.messages|..] == written.messages;
  }

  /**
   * The files, directories and registry `process_response` leaves behind:
   * the files are as `FilesAfter` the writes of the parsed blocks says; the
   * directories gained are the filtered structure candidates whose call
   * succeeded and the parents of the writes that raised nothing; and the registry
   * keys are the old keys followed by each freshly written path, in the order
   * of its first `Successfully wrote file` message.
   */
  lemma ProcessEffects(disk: Disk, registry: Registry, responseText: string,
                       dirFaults: seq<Option<string>>, fileFaults: seq<Option<string>>)
    requires Consistent(disk, registry)
    ensures var lines := Split(responseText, '\n');
      var writes := Writes(Blocks(lines));
      var n := |Targets(Candidates(lines, |lines|))|;
      var r := ProcessSpec(disk, registry, responseText, dirFaults, fileFaults);
      && FilesAfter(disk.files, writes, fileFaults, r.disk.files)
      && r.disk.dirs == disk.dirs + Succeeded(Targets(Candidates(lines, |lines|)), dirFaults, 0) + Parents(writes, fileFaults, 0)
      && |r.messages| == n + |writes|
      && r.registry.keys == FirstSeen(registry.keys, WrotePaths(writes, r.messages[n..]))
  {
    var lines := Split(responseText, '\n');
    PipelineEffects(disk, registry, Candidates(lines, |lines|), Blocks(lines), dirFaults, fileFaults);
  }

  /**
   * The loop of `create_directories` over the candidates: each is stripped
   * and unquoted, skipped when it looks like a file, and otherwise made (the
   * `k`-th call taking outcome `Fault(faults, k)`) and reported.
   */
  method CreateEach(disk: Disk, directories: seq<string>, faults: seq<Option<string>>)
    returns (after: Disk, messages: seq<string>)
    ensures DirBatch(after, messages) == MakeDirs(disk, directories, faults)
  {
    messages := [];
    var attempt := 0;
    after := disk;
    ghost var result := MakeDirs(disk, directories, faults);
    for i := 0 to |directories|
      invariant DirsPending(result, directories, faults, i, after, messages, attempt)
    {
      DirLoopStep(result, directories, faults, i, after, messages, attempt);
      var dirPath := StripQuotes(Strip(directories[i]));
      if LooksLikeFile(dirPath) {
        continue;
      }
      var fault := Fault(faults, attempt);
      if fault.None? {
        after := after.(dirs := after.dirs + {dirPath});
      }
      messages := messages + [DirMessage(dirPath, fault)];
      attempt := attempt + 1;
    }
  }

  // ---------------------------------------------------------------------------
  // The generator object

  class ContinuousGenerator {
    /** The files and directories under the output directory. */
    var disk: Disk
    /** `self.file_registry`. */
    var fileRegistry: Registry

    ghost predicate Valid()
      reads this
    {
      Consistent(disk, fileRegistry)
    }

    /** A generator over an output directory that may already hold files; the registry starts empty. */
    constructor (existing: Disk)
      ensures Valid() && disk == existing && fileRegistry == Empty()
    {
      disk := existing;
      fileRegistry := Empty();
    }

    method WriteFile(filePath: string, code: string, fault: Option<string>) returns (success: bool, message: string)
      requires Valid()
      modifies this
      ensures Valid()
      ensures Write(disk, fileRegistry, success, message) == WriteStep(old(disk), old(fileRegistry), filePath, code, fault)
    {
      var path := StripQuotes(Strip(filePath));
      if LooksAbsolute(path) {
        path := PosixName(path);
      }
      assert path == Sanitize(filePath);
      ghost var expected := Store(disk, fileRegistry, path, code, fault);
      WriteKeepsRegistry(disk, fileRegistry, path, code, fault);
      assert Consistent(expected.disk, expected.registry);
      if fault.Some? {
        return false, WriteErrorMessage(path, fault.value);
      }
      disk := disk.(dirs := disk.dirs + {ParentDir(path)});
      if path in disk.files && ReadBack(disk.files[path]) == code {
        return true, SkipMessage(path);
      }
      disk := disk.(files := disk.files[path := code]);
      fileRegistry := fileRegistry.Put(path, SizeInfo(code));
      return true, WroteMessage(path);
    }

    method CreateDirectories(directories: seq<string>, faults: seq<Option<string>>) returns (messages: seq<string>)
      requires Valid()
      modifies this
      ensures Valid() && fileRegistry == old(fileRegistry)
      ensures DirBatch(disk, messages) == MakeDirs(old(disk), directories, faults)
    {
      var after;
      after, messages := CreateEach(disk, directories, faults);
      MakeShape(disk, Targets(directories), faults, 0);
      disk := after;
    }

    method ProcessResponse(responseText: string, dirFaults: seq<Option<string>>, fileFaults: seq<Option<string>>)
      returns (messages: seq<string>)
      requires Valid()
      modifies this
      ensures Valid()
      ensures Batch(disk, fileRegistry, messages) == ProcessSpec(old(disk), old(fileRegistry), responseText, dirFaults, fileFaults)
    {
      messages := [];
      var directories := ExtractFileStructure(responseText);
      if |directories| > 0 {
        var dirMessages := CreateDirectories(directories, dirFaults);
        messages := messages + dirMessages;
      }
      ghost var lines := Split(responseText, '\n');
      ghost var made := if |directories| > 0 then MakeDirs(old(disk), directories, dirFaults) else DirBatch(old(disk), []);
      assert disk == made.disk && messages == made.messages && fileRegistry == old(fileRegistry);
      var codeBlocks := ParseCodeBlocks(responseText);
      ghost var dirMessages := messages;
      ghost var written := WriteAll(disk, fileRegistry, codeBlocks, fileFaults);
      assert ProcessSpec(old(disk), old(fileRegistry), responseText, dirFaults, fileFaults)
          == Batch(written.disk, written.registry, dirMessages + written.messages);
      var attempt := 0;
      for i := 0 to |codeBlocks|
        invariant Valid()
        invariant var rest := StoreAll(disk, fileRegistry, Writes(codeBlocks[i..]), fileFaults, attempt);
          && written.disk == rest.disk && written.registry == rest.registry
          && dirMessages + written.messages == messages + rest.messages
      {
        WritesStep(codeBlocks, i);
        var block := codeBlocks[i];
        if block.path != "" && block.code != "" {
          StoreLoopStep(written, dirMessages, disk, fileRegistry, messages, Block(Sanitize(block.path), block.code),
                        Writes(codeBlocks[i + 1..]), fileFaults, attempt);
          var success, message := WriteFile(block.path, block.code, Fault(fileFaults, attempt));
          messages := messages + [message];
          attempt := attempt + 1;
        }
      }
      assert Writes(codeBlocks[|codeBlocks|..]) == [];
    }

    /**
     * `generate_next_prompt()`: read line by line, the fixed head, one
     * `path: info` line per registered file in the order the files were first
     * written, and the fixed tail.
     */
    function GenerateNextPrompt(): (prompt: string)
      reads this
      requires Valid()
      ensures SingleLineEntries(fileRegistry) ==>
        Split(prompt, '\n') == PromptHead + (if fileRegistry.keys == [] then [""] else EntryLines(fileRegistry)) + PromptTail
    {
      if SingleLineEntries(fileRegistry) then PromptLines(fileRegistry); NextPrompt(fileRegistry)
      else NextPrompt(fileRegistry)
    }
  }

}
