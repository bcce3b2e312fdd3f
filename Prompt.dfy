/**
 * Prompt rendering (`generate_next_prompt`): the files generated so far, one
 * `path: info` line each in registry insertion order, inside a fixed
 * request to continue. The template is written as its lines; joined with
 * newlines they are the program's text exactly, with the file list in the
 * third place.
 */
module Prompt {
  import opened Text
  import opened OrderedMaps

  /** The file registry: cleaned path to a one-line summary, in insertion order. */
  type Registry = OrderedMap<string, string>

  // The longer template lines are written as concatenations of shorter
  // literals: the verifier can only look inside short string literals.
  const Header: string := "I've generated the following files so far:"
  const Focus: string := "Please continue the code generation " + "for the project. Focus on:"
  const Item1: string := "1. Implementing any missing functionality"
  const Item2: string := "2. Improving existing code if needed"
  const Item3: string := "3. Adding any necessary files " + "that haven't been created yet"
  const Item4: string := "4. Ensuring everything works " + "together cohesively"
  const Closing: string := "You can refer to the files " + "I've already created. " + "Please provide the next set " + "of files or updates."

  const PromptHead: seq<string> := ["", Header]
  const PromptTail: seq<string> := ["", Focus, Item1, Item2, Item3, Item4, "", Closing, ""]

  /** One registry entry as the prompt lists it. */
  function EntryLine(path: string, info: string): string {
    path + ": " + info
  }

  /** The registry's entries, one line each, in insertion order. */
  function EntryLines(registry: Registry): seq<string>
    requires registry.Valid()
  {
    seq(|registry.keys|, i requires 0 <= i < |registry.keys| =>
      var path := registry.keys[i];
      assert path in registry.keys;
      EntryLine(path, registry.entries[path]))
  }

  /** `files_info`: the entry lines joined by newlines. */
  function FilesInfo(registry: Registry): string
    requires registry.Valid()
  {
    Join(EntryLines(registry), '\n')
  }

  /** The next round's prompt. */
  function NextPrompt(registry: Registry): string
    requires registry.Valid()
  {
    Join(PromptHead + [FilesInfo(registry)] + PromptTail, '\n')
  }

  /** No path or summary in the registry spans lines. */
  predicate SingleLineEntries(registry: Registry) {
    forall k :: k in registry.entries ==> '\n' !in k && '\n' !in registry.entries[k]
  }

  /**
   * Read line by line, the prompt is the fixed head, then one `path: info`
   * line per registry entry in insertion order (a single empty line when
   * there is none), then the fixed tail.
   */
  lemma PromptLines(registry: Registry)
    requires registry.Valid() && SingleLineEntries(registry)
    ensures Split(NextPrompt(registry), '\n')
         == PromptHead + (if registry.keys == [] then [""] else EntryLines(registry)) + PromptTail
  {
    TemplateSingleLine();
    SplitJoinAround(PromptHead, FilesInfo(registry), PromptTail, '\n');
    if registry.keys != [] {
      EntryLinesSingleLine(registry);
      SplitJoin(EntryLines(registry), '\n');
    }
  }

  /** The template's own lines hold no newline. */
  lemma TemplateSingleLine()
    ensures forall i :: 0 <= i < |PromptHead| ==> '\n' !in PromptHead[i]
    ensures forall i :: 0 <= i < |PromptTail| ==> '\n' !in PromptTail[i]
  {
    HeadLinesSingle();
    ItemLinesSingle();
  }

  lemma HeadLinesSingle()
    ensures '\n' !in Header && '\n' !in Focus && '\n' !in Closing
  {
    HeaderSingle();
    FocusSingle();
    ClosingSingle();
  }

  lemma ItemLinesSingle()
    ensures '\n' !in Item1 && '\n' !in Item2 && '\n' !in Item3 && '\n' !in Item4
  {
    Item1Single();
    Item2Single();
    Item3Single();
    Item4Single();
  }

  // Proof helpers: one fact per template line, each checked on its own.
  lemma HeaderSingle() ensures '\n' !in Header {}
  lemma FocusSingle() ensures '\n' !in Focus {}
  lemma ClosingSingle() ensures '\n' !in Closing {}
  lemma Item1Single() ensures '\n' !in Item1 {}
  lemma Item2Single() ensures '\n' !in Item2 {}
  lemma Item3Single() ensures '\n' !in Item3 {}
  lemma Item4Single() ensures '\n' !in Item4 {}

  /** Entries made of single-line paths and summaries are single lines. */
  lemma EntryLinesSingleLine(registry: Registry)
    requires registry.Valid() && SingleLineEntries(registry)
    ensures forall i :: 0 <= i < |EntryLines(registry)| ==> '\n' !in EntryLines(registry)[i]
  {
    var entries := EntryLines(registry);
    forall i | 0 <= i < |entries| ensures '\n' !in entries[i] {
      assert registry.keys[i] in registry.keys;
    }
  }

}
