/** The state App.tsx keeps and the handlers that change it: generation and
    refinement, and the History and Library collections. A generation is one
    atomic step from the moment the idea is submitted to the moment the
    stream ends; identifiers and timestamps come from outside. */
module App {
  import opened Wrappers
  import opened Text
  import Seqs
  import opened Extract
  import opened Catalog
  import opened Context

  datatype HistoryItem = HistoryItem(id: string, idea: string, prompt: string, persona: string,
                                     mode: string, timestamp: int)

  datatype Tab = CreateTab | HistoryTab

  datatype AppState = AppState(
    idea: string, files: seq<UploadedFile>, persona: string, mode: string,
    generated: string, isLoading: bool, isRefining: bool, error: Option<string>,
    tab: Tab, history: seq<HistoryItem>, library: seq<HistoryItem>)

  /** The outside world one generation sees: whether a key is configured, the
      service, the catalogs, and the fresh id and clock reading it would
      record. */
  datatype Env = Env(hasApiKey: bool, service: Request -> Stream, modes: seq<Mode>,
                     personas: seq<Persona>, newId: string, now: int)

  const EmptyIdeaError := "Please enter a prompt idea."
  const GenerateErrorPrefix := "Failed to generate prompt. "

  /** The state on first render, before anything is restored. */
  function Initial(): AppState {
    AppState("", [], "default", "detailed", "", false, false, None, CreateTab, [], [])
  }

  /** The values the displayed prompt takes while a stream is read: after
      each chunk, the running total so far. */
  function RunningTotals(chunks: seq<string>): (r: seq<string>)
    ensures |r| == |chunks|
    ensures forall k :: 0 <= k < |r| ==> r[k] == Concat(chunks[..k + 1])
  {
    RunningFrom("", chunks)
  }

  /** The fold `fullResponse += chunk`, starting from `acc`. */
  function RunningFrom(acc: string, chunks: seq<string>): (r: seq<string>)
    ensures |r| == |chunks|
    ensures forall k :: 0 <= k < |r| ==> r[k] == acc + Concat(chunks[..k + 1])
    decreases |chunks|
  {
    if chunks == [] then []
    else
      var next := acc + chunks[0];
      var rest := RunningFrom(next, chunks[1..]);
      assert forall k :: 0 <= k < |rest| ==> rest[k] == acc + Concat(chunks[..k + 2]) by {
        forall k | 0 <= k < |rest| ensures rest[k] == acc + Concat(chunks[..k + 2]) {
          ConcatCons(chunks[..k + 2]);
          assert chunks[..k + 2][1..] == chunks[1..][..k + 1];
          Seqs.AppendAssoc(acc, chunks[0], Concat(chunks[1..][..k + 1]));
        }
      }
      assert Concat(chunks[..1]) == chunks[0] by {
        assert chunks[..1][..0] == [];
      }
      [next] + rest
  }

  lemma {:induction false} ConcatCons(ss: seq<string>)
    requires ss != []
    ensures Concat(ss) == ss[0] + Concat(ss[1..])
  {
    assert ss == [ss[0]] + ss[1..];
    ConcatAppend([ss[0]], ss[1..]);
    assert [ss[0]][..0] == [];
  }

  /** Each displayed value extends the one before, and the last is the whole
      response. */
  lemma {:induction false} RunningTotalsGrow(chunks: seq<string>)
    ensures forall k :: 0 <= k < |chunks| - 1 ==> RunningTotals(chunks)[k] <= RunningTotals(chunks)[k + 1]
    ensures chunks != [] ==> RunningTotals(chunks)[|chunks| - 1] == Concat(chunks)
  {
    var r := RunningTotals(chunks);
    forall k | 0 <= k < |chunks| - 1 ensures r[k] <= r[k + 1] {
      ConcatPrefix(chunks[..k + 2], k + 1);
      assert chunks[..k + 2][..k + 1] == chunks[..k + 1];
    }
    if chunks != [] {
      assert chunks[..|chunks|] == chunks;
    }
  }

  /** The generation a submission triggers, with the files, persona and mode
      of the state. */
  function Generate(s: AppState, idea: string, env: Env): Generation {
    GenerateAdvancedPrompt(env.hasApiKey, idea, s.files, env.modes, env.personas, s.persona, s.mode, env.service)
  }

  /** The state change of `handleGenerate` once the generator `g` has
      delivered. A blank idea only sets the error. Otherwise the response is
      the concatenation of the yielded chunks; on success one item is
      prepended to the history, on failure the error is set; the flag of the
      track in use ends cleared either way. */
  function Commit(s: AppState, currentIdea: string, isRefinement: bool, g: Generation,
                  newId: string, now: int): (r: AppState)
    ensures Trim(currentIdea) == "" ==> r == s.(error := Some(EmptyIdeaError))
    ensures r.library == s.library && r.files == s.files && r.persona == s.persona && r.mode == s.mode
            && r.idea == s.idea && r.tab == s.tab
    ensures Trim(currentIdea) != "" ==>
      && r.generated == Concat(g.chunks)
      && (if isRefinement then !r.isRefining && r.isLoading == s.isLoading
          else !r.isLoading && r.isRefining == s.isRefining)
      && (g.error.None? ==>
            && r.error == None
            && r.history == [HistoryItem(newId, currentIdea, Concat(g.chunks), s.persona, s.mode, now)] + s.history)
      && (g.error.Some? ==>
            r.history == s.history && r.error == Some(GenerateErrorPrefix + g.error.value))
  {
    if Trim(currentIdea) == "" then s.(error := Some(EmptyIdeaError))
    else
      var full := Concat(g.chunks);
      var settled := if isRefinement then s.(isRefining := false) else s.(isLoading := false);
      match g.error
      case None =>
        var item := HistoryItem(newId, currentIdea, full, s.persona, s.mode, now);
        settled.(generated := full, error := None, history := [item] + s.history)
      case Some(message) =>
        settled.(generated := full, error := Some(GenerateErrorPrefix + message))
  }

  /** `handleGenerate`: the generation for the state's files, persona and
      mode, then its commit. Every failure shows the one fixed message. */
  function HandleGenerate(s: AppState, currentIdea: string, isRefinement: bool, env: Env): (r: AppState)
    ensures Trim(currentIdea) != "" && Generate(s, currentIdea, env).error.Some? ==>
      r.history == s.history && r.error == Some(GenerateErrorPrefix + FailureMessage)
    ensures Trim(currentIdea) != "" && env.hasApiKey && env.modes != [] ==>
      var request := BuildRequest(currentIdea, s.files, env.personas, s.persona, ModeFor(env.modes, s.mode).value);
      r.generated == Concat(env.service(request).chunks)
  {
    Commit(s, currentIdea, isRefinement, Generate(s, currentIdea, env), env.newId, env.now)
  }

  function Ids(items: seq<HistoryItem>): set<string> {
    set i | 0 <= i < |items| :: items[i].id
  }

  predicate UniqueIds(items: seq<HistoryItem>) {
    forall i, j :: 0 <= i < j < |items| ==> items[i].id != items[j].id
  }

  /** With a fresh id, a generation keeps the history's ids distinct. */
  lemma {:induction false} CommitKeepsIdsUnique(s: AppState, currentIdea: string, isRefinement: bool, g: Generation,
                             newId: string, now: int)
    requires UniqueIds(s.history) && newId !in Ids(s.history)
    ensures UniqueIds(Commit(s, currentIdea, isRefinement, g, newId, now).history)
  {
    var h := Commit(s, currentIdea, isRefinement, g, newId, now).history;
    if h != s.history {
      forall i, j | 0 <= i < j < |h| ensures h[i].id != h[j].id {
        if i == 0 {
          assert h[j] == s.history[j - 1];
        } else {
          assert h[i] == s.history[i - 1] && h[j] == s.history[j - 1];
        }
      }
    }
  }

  /** `Here is the prompt to refine: ... Apply this instruction: "..."`. */
  function RefinementIdea(current: string, instruction: string): string {
    "Here is the prompt to refine:\n---\n" + current + "\n---\nApply this instruction: \"" + instruction + "\""
  }

  /** The refinement panel is shown only when there is a result and neither
      track is running. */
  predicate CanRefine(s: AppState) {
    s.generated != "" && !s.isLoading && !s.isRefining
  }

  /** A refinement request from the panel: ignored unless the panel is shown
      and the instruction is not blank; otherwise the commit, on the
      refinement track, of generation `g` for the template idea. */
  function Refine(s: AppState, instruction: string, g: Generation, newId: string, now: int): (r: AppState)
    ensures !CanRefine(s) || Trim(instruction) == "" ==> r == s
    ensures CanRefine(s) && Trim(instruction) != "" ==>
      && !r.isRefining && !r.isLoading
      && (g.error.None? ==> |r.history| == |s.history| + 1
                            && r.history[0].idea == RefinementIdea(s.generated, instruction)
                            && r.history[1..] == s.history)
      && (g.error.Some? ==> r.history == s.history)
  {
    if !CanRefine(s) || Trim(instruction) == "" then s
    else
      RefinementIdeaNotBlank(s.generated, instruction);
      Commit(s, RefinementIdea(s.generated, instruction), true, g, newId, now)
  }

  /** `handleRefine` as the panel triggers it, with the generation for the
      refinement idea. */
  function HandleRefine(s: AppState, instruction: string, env: Env): AppState {
    Refine(s, instruction, Generate(s, RefinementIdea(s.generated, instruction), env), env.newId, env.now)
  }

  /** The template itself is never blank, so a refinement is never refused
      as an empty idea. */
  lemma {:induction false} RefinementIdeaNotBlank(current: string, instruction: string)
    ensures Trim(RefinementIdea(current, instruction)) != ""
  {
    var r := RefinementIdea(current, instruction);
    assert r[0] == 'H';
    TrimEmptyIffBlank(r);
  }

  /** `handleSaveToLibrary`: prepend the item unless its id is already
      saved. */
  function SaveToLibrary(library: seq<HistoryItem>, item: HistoryItem): (r: seq<HistoryItem>)
    ensures item.id in Ids(r)
    ensures item.id in Ids(library) ==> r == library
    ensures item.id !in Ids(library) ==> |r| == |library| + 1 && r[0] == item && r[1..] == library
  {
    if exists i :: 0 <= i < |library| && library[i].id == item.id then library
    else
      assert ([item] + library)[0].id == item.id;
      [item] + library
  }

  /** Saving twice is saving once. */
  lemma {:induction false} SaveIdempotent(library: seq<HistoryItem>, item: HistoryItem)
    ensures SaveToLibrary(SaveToLibrary(library, item), item) == SaveToLibrary(library, item)
  {
  }

  /** Saving keeps the library's ids distinct. */
  lemma {:induction false} SaveKeepsIdsUnique(library: seq<HistoryItem>, item: HistoryItem)
    requires UniqueIds(library)
    ensures UniqueIds(SaveToLibrary(library, item))
  {
    var r := SaveToLibrary(library, item);
    if item.id !in Ids(library) {
      forall i, j | 0 <= i < j < |r| ensures r[i].id != r[j].id {
        assert r[j] == library[j - 1];
        if i > 0 {
          assert r[i] == library[i - 1];
        }
      }
    }
  }

  /** `items.filter(item => item.id !== id)`. */
  function RemoveById(items: seq<HistoryItem>, id: string): (r: seq<HistoryItem>)
    ensures forall i :: 0 <= i < |r| ==> r[i].id != id
    ensures id !in Ids(r)
    ensures forall i :: 0 <= i < |items| && items[i].id != id ==> items[i] in r
    ensures id !in Ids(items) ==> r == items
  {
    if items == [] then []
    else
      var rest := RemoveById(items[1..], id);
      if items[0].id == id then rest
      else
        var r := [items[0]] + rest;
        assert id !in Ids(items) ==> id !in Ids(items[1..]) by {
          if id in Ids(items[1..]) {
            var i :| 0 <= i < |items[1..]| && items[1..][i].id == id;
            assert items[i + 1].id == id;
          }
        }
        r
  }

  /** Unsaving undoes saving a new item. */
  lemma {:induction false} RemoveUndoesSave(library: seq<HistoryItem>, item: HistoryItem)
    requires item.id !in Ids(library)
    ensures RemoveById(SaveToLibrary(library, item), item.id) == library
  {
    var r := SaveToLibrary(library, item);
    assert r[1..] == library;
  }

  /** `handleRemoveFromLibrary`. */
  function RemoveFromLibrary(s: AppState, id: string): (r: AppState)
    ensures id !in Ids(r.library)
    ensures r.history == s.history
    ensures r.(library := s.library) == s
  {
    s.(library := RemoveById(s.library, id))
  }

  /** Removal only drops entries: what is left keeps its order. */
  lemma {:induction false} RemoveByIdSubseq(items: seq<HistoryItem>, id: string)
    ensures Seqs.Subseq(RemoveById(items, id), items)
    decreases |items|
  {
    if items != [] {
      RemoveByIdSubseq(items[1..], id);
      var r := RemoveById(items, id);
      if items[0].id == id {
        assert Seqs.Subseq(r, items[1..]);
      } else {
        assert r[1..] == RemoveById(items[1..], id);
      }
    }
  }

  /** `handleDeleteFromHistory`: the id leaves the history and, if saved,
      the library; every other entry of either stays, in order. */
  function DeleteFromHistory(s: AppState, id: string): (r: AppState)
    ensures id !in Ids(r.history) && id !in Ids(r.library)
    ensures Seqs.Subseq(r.history, s.history) && Seqs.Subseq(r.library, s.library)
    ensures forall i :: 0 <= i < |s.history| && s.history[i].id != id ==> s.history[i] in r.history
    ensures forall i :: 0 <= i < |s.library| && s.library[i].id != id ==> s.library[i] in r.library
    ensures r.(history := s.history, library := s.library) == s
  {
    RemoveByIdSubseq(s.history, id);
    RemoveByIdSubseq(s.library, id);
    RemoveFromLibrary(s.(history := RemoveById(s.history, id)), id)
  }

  /** `handleLoadFromHistory`: the item's idea, prompt, persona and mode come
      back, files are cleared since they are not kept, and the create tab
      opens. */
  function LoadFromHistory(s: AppState, item: HistoryItem): (r: AppState)
    ensures r.idea == item.idea && r.generated == item.prompt
    ensures r.persona == item.persona && r.mode == item.mode
    ensures r.files == [] && r.tab == CreateTab
    ensures r.history == s.history && r.library == s.library
    ensures r.isLoading == s.isLoading && r.isRefining == s.isRefining && r.error == s.error
  {
    s.(idea := item.idea, generated := item.prompt, persona := item.persona, mode := item.mode,
       files := [], tab := CreateTab)
  }

  /** Loading the entry a generation just committed brings back the prompt
      that generation produced, with its persona and mode. */
  lemma {:induction false} LoadLatestRestores(s: AppState, currentIdea: string, isRefinement: bool, g: Generation,
                            newId: string, now: int)
    requires Trim(currentIdea) != "" && g.error.None?
    ensures var t := Commit(s, currentIdea, isRefinement, g, newId, now);
      var u := LoadFromHistory(t, t.history[0]);
      u.generated == t.generated && u.idea == currentIdea && u.persona == s.persona && u.mode == s.mode
  {
  }

  /** Whether the newest history entry is in the library. */
  predicate LatestSaved(s: AppState) {
    |s.history| > 0 && s.history[0].id in Ids(s.library)
  }

  /** The output panel's save button: saves the newest history entry, if
      there is one. */
  function SaveLatest(s: AppState): (r: AppState)
    ensures |s.history| > 0 ==> LatestSaved(r)
    ensures |s.history| == 0 ==> r == s
    ensures r.(library := s.library) == s
  {
    if |s.history| > 0 then s.(library := SaveToLibrary(s.library, s.history[0])) else s
  }

  /** After a successful generation the save button saves exactly the new
      entry, and pressing it again changes nothing. */
  lemma {:induction false} SaveAfterGenerate(s: AppState, currentIdea: string, g: Generation, newId: string, now: int)
    requires Trim(currentIdea) != "" && g.error.None?
    requires newId !in Ids(s.library)
    ensures var t := SaveLatest(Commit(s, currentIdea, false, g, newId, now));
      && t.library[0].id == newId && t.library[0].prompt == Concat(g.chunks)
      && t.library[1..] == s.library
      && SaveLatest(t) == t
  {
  }
}
