/** The request `generateAdvancedPrompt` (services/geminiService.ts) builds
    from an idea, the pending files, a persona and a mode, and the way it
    reports the service's answer. The service itself is a parameter: a
    function from the request to the chunks it streams and whether it then
    fails. */
module Context {
  import opened Wrappers
  import opened Text
  import Seqs
  import Transport
  import opened Extract
  import opened Catalog

  const ModelName := "gemini-2.0-flash"
  const FailureMessage := "The AI model failed to generate a response. Please check your input and try again."
  const DocumentsHeader := "--- CONTEXT FROM UPLOADED DOCUMENTS ---\n\n"
  const DocumentsFooter := "--------------------------------------\n\n"

  /** The persona instruction, when there is one, ahead of the mode's
      instruction and separated from it by a blank line. */
  function SystemInstruction(personaInstruction: string, base: string): (r: string)
    ensures personaInstruction == "" ==> r == base
    ensures personaInstruction != "" ==>
      && |r| == |personaInstruction| + 2 + |base|
      && r[..|personaInstruction|] == personaInstruction
      && r[|personaInstruction|..|personaInstruction| + 2] == "\n\n"
      && r[|personaInstruction| + 2..] == base
  {
    if personaInstruction != "" then personaInstruction + "\n\n" + base else base
  }

  predicate IsText(f: UploadedFile) {
    f.mimeType == TextPlain
  }

  /** `files.filter(f => f.type === 'text/plain')`. */
  function TextFiles(files: seq<UploadedFile>): seq<UploadedFile> {
    Seqs.Filter(files, IsText)
  }

  /** `files.filter(f => f.type !== 'text/plain')`. */
  function OtherFiles(files: seq<UploadedFile>): seq<UploadedFile> {
    Seqs.Filter(files, Seqs.Not(IsText))
  }

  /** The two groups separate the files: each group holds only its own kind,
      together they hold every file exactly as often as it was given, and
      each keeps the files' relative order. */
  lemma {:induction false} SplitFiles(files: seq<UploadedFile>)
    ensures forall i :: 0 <= i < |TextFiles(files)| ==> IsText(TextFiles(files)[i])
    ensures forall i :: 0 <= i < |OtherFiles(files)| ==> !IsText(OtherFiles(files)[i])
    ensures multiset(TextFiles(files)) + multiset(OtherFiles(files)) == multiset(files)
    ensures Seqs.Interleaves(files, TextFiles(files), OtherFiles(files))
  {
    Seqs.FilterSplitMultiset(files, IsText);
    Seqs.FilterSplitInterleaves(files, IsText);
  }

  /** `User's core idea: "<idea>"` and a blank line. */
  function IdeaHeader(idea: string): string {
    IdeaOpening + idea + "\"\n\n"
  }

  const IdeaOpening := "User's core idea: \""

  /** The block of one text file: its decoded content under its name, or
      nothing when the content decodes to the empty string. */
  function DocumentBlock(f: UploadedFile): string {
    var content := Transport.FromBase64(f.data);
    if content == "" then "" else "[Content from " + f.name + "]:\n" + content + "\n\n"
  }

  /** The blocks of the files, in order (the `forEach` over the text files). */
  function DocumentBlocks(files: seq<UploadedFile>): string {
    if files == [] then "" else DocumentBlocks(files[..|files| - 1]) + DocumentBlock(files[|files| - 1])
  }

  /** `combinedText`. */
  function CombinedText(idea: string, files: seq<UploadedFile>): (r: string)
    ensures IdeaHeader(idea) <= r
    ensures TextFiles(files) == [] <==> r == IdeaHeader(idea)
  {
    var texts := TextFiles(files);
    IdeaHeader(idea) + (if texts != [] then DocumentsHeader + DocumentBlocks(texts) + DocumentsFooter else "")
  }

  /** Blocks are laid out file by file: the text of two groups of files is
      the text of the first followed by the text of the second. */
  lemma {:induction false} DocumentBlocksAppend(a: seq<UploadedFile>, b: seq<UploadedFile>)
    ensures DocumentBlocks(a + b) == DocumentBlocks(a) + DocumentBlocks(b)
    decreases |b|
  {
    if b == [] {
      assert a + b == a;
    } else {
      var b' := b[..|b| - 1];
      assert (a + b)[..|a + b| - 1] == a + b';
      assert (a + b)[|a + b| - 1] == b[|b| - 1];
      DocumentBlocksAppend(a, b');
      Seqs.AppendAssoc(DocumentBlocks(a), DocumentBlocks(b'), DocumentBlock(b[|b| - 1]));
    }
  }

  /** A file whose content decodes to the empty string adds nothing; any
      other adds its name and content verbatim. */
  lemma {:induction false} SingleBlock(f: UploadedFile)
    ensures Transport.FromBase64(f.data) == "" ==> DocumentBlocks([f]) == ""
    ensures Transport.FromBase64(f.data) != "" ==>
      DocumentBlocks([f]) == "[Content from " + f.name + "]:\n" + Transport.FromBase64(f.data) + "\n\n"
  {
    assert [f][..0] == [];
  }

  /** With text files present the text is the idea, the opening marker, the
      blocks and the closing marker. */
  lemma {:induction false} CombinedTextLayout(idea: string, files: seq<UploadedFile>)
    requires TextFiles(files) != []
    ensures CombinedText(idea, files)
      == IdeaHeader(idea) + DocumentsHeader + DocumentBlocks(TextFiles(files)) + DocumentsFooter
  {
    var h, b := IdeaHeader(idea), DocumentBlocks(TextFiles(files));
    Seqs.AppendAssoc(h, DocumentsHeader + b, DocumentsFooter);
    Seqs.AppendAssoc(h, DocumentsHeader, b);
  }

  /** The markers stay even when every text file decodes to nothing. */
  lemma {:induction false} MarkersWithoutContent(idea: string, files: seq<UploadedFile>)
    requires TextFiles(files) != []
    requires forall i :: 0 <= i < |TextFiles(files)| ==> Transport.FromBase64(TextFiles(files)[i].data) == ""
    ensures CombinedText(idea, files) == IdeaHeader(idea) + DocumentsHeader + DocumentsFooter
  {
    BlocksOfEmpty(TextFiles(files));
    CombinedTextLayout(idea, files);
  }

  lemma {:induction false} BlocksOfEmpty(files: seq<UploadedFile>)
    requires forall i :: 0 <= i < |files| ==> Transport.FromBase64(files[i].data) == ""
    ensures DocumentBlocks(files) == ""
  {
    if files != [] {
      BlocksOfEmpty(files[..|files| - 1]);
    }
  }

  /** Files other than plain text never change the text part. */
  lemma {:induction false} CombinedTextIgnoresOthers(idea: string, files: seq<UploadedFile>)
    ensures CombinedText(idea, files) == CombinedText(idea, TextFiles(files))
  {
    Seqs.FilterKeepsAll(TextFiles(files), IsText);
  }

  /** The idea can be read back from the text part: two ideas with the same
      files give the same text only when they are equal. */
  lemma {:induction false} CombinedTextInjective(idea1: string, idea2: string, files: seq<UploadedFile>)
    requires CombinedText(idea1, files) == CombinedText(idea2, files)
    ensures idea1 == idea2
  {
    var texts := TextFiles(files);
    var tail := if texts != [] then DocumentsHeader + DocumentBlocks(texts) + DocumentsFooter else "";
    var h1, h2 := IdeaHeader(idea1), IdeaHeader(idea2);
    assert CombinedText(idea1, files) == h1 + tail;
    assert CombinedText(idea2, files) == h2 + tail;
    IdeaInHeader(idea1);
    IdeaInHeader(idea2);
    assert |h1| == |h2|;
    assert h1 == (h1 + tail)[..|h1|];
    assert h2 == (h2 + tail)[..|h2|];
  }

  /** The idea sits right after the fixed opening of its header. */
  lemma {:induction false} IdeaInHeader(idea: string)
    ensures |IdeaHeader(idea)| == |IdeaOpening| + |idea| + 3
    ensures IdeaHeader(idea)[|IdeaOpening|..|IdeaOpening| + |idea|] == idea
  {
  }

  /** A lone text file with content contributes exactly its one block. */
  lemma {:induction false} LoneTextFile(idea: string, f: UploadedFile)
    requires IsText(f) && Transport.FromBase64(f.data) != ""
    ensures CombinedText(idea, [f])
      == IdeaHeader(idea) + DocumentsHeader + "[Content from " + f.name + "]:\n" + Transport.FromBase64(f.data) + "\n\n" + DocumentsFooter
  {
    assert TextFiles([f]) == [f] by {
      Seqs.FilterKeepsAll([f], IsText);
    }
    SingleBlock(f);
    CombinedTextLayout(idea, [f]);
    BlockAfter(IdeaHeader(idea) + DocumentsHeader, f.name, Transport.FromBase64(f.data));
  }

  /** Re-bracketing a block written after some text `p`. */
  lemma {:induction false} BlockAfter(p: string, name: string, content: string)
    ensures p + ("[Content from " + name + "]:\n" + content + "\n\n")
      == p + "[Content from " + name + "]:\n" + content + "\n\n"
  {
    var a := "[Content from ";
    Seqs.AppendAssoc(p, a + name + "]:\n" + content, "\n\n");
    Seqs.AppendAssoc(p, a + name + "]:\n", content);
    Seqs.AppendAssoc(p, a + name, "]:\n");
    Seqs.AppendAssoc(p, a, name);
  }

  /** A text uploaded as plain text reaches the request verbatim: its record,
      alone, produces exactly one block carrying the original text. */
  lemma {:induction false} UploadedTextReachesContext(idea: string, name: string, text: string)
    requires text != ""
    ensures TextRecord(name, text).Some?
    ensures CombinedText(idea, [TextRecord(name, text).value])
      == IdeaHeader(idea) + DocumentsHeader + "[Content from " + name + "]:\n" + text + "\n\n" + DocumentsFooter
  {
    var f := TextRecord(name, text).value;
    LoneTextFile(idea, f);
  }

  /** One part of the request. */
  datatype Part = TextPart(text: string) | InlineData(data: string, mimeType: string)

  /** `fileToGenerativePart`: the stored payload and type, unchanged. */
  function InlinePart(f: UploadedFile): Part {
    InlineData(f.data, f.mimeType)
  }

  /** `[textPart, ...fileParts]`: the text part first, then one inline part
      per file that is not plain text, in order, carrying the stored payload
      and type unchanged. */
  function Parts(idea: string, files: seq<UploadedFile>): (r: seq<Part>)
    ensures |r| == 1 + |OtherFiles(files)|
    ensures r[0] == TextPart(CombinedText(idea, files))
    ensures forall i :: 0 <= i < |OtherFiles(files)| ==>
      && r[i + 1] == InlineData(OtherFiles(files)[i].data, OtherFiles(files)[i].mimeType)
      && OtherFiles(files)[i].mimeType != TextPlain
  {
    OthersNotText(files);
    Assemble(CombinedText(idea, files), OtherFiles(files))
  }

  lemma {:induction false} OthersNotText(files: seq<UploadedFile>)
    ensures forall i :: 0 <= i < |OtherFiles(files)| ==> OtherFiles(files)[i].mimeType != TextPlain
  {
    SplitFiles(files);
  }

  function Assemble(text: string, others: seq<UploadedFile>): (r: seq<Part>)
    ensures |r| == 1 + |others|
    ensures r[0] == TextPart(text)
    ensures forall i :: 0 <= i < |others| ==> r[i + 1] == InlinePart(others[i])
  {
    [TextPart(text)] + InlineParts(others)
  }

  /** `files.map(fileToGenerativePart)`. */
  function InlineParts(files: seq<UploadedFile>): (r: seq<Part>)
    ensures |r| == |files|
    ensures forall i :: 0 <= i < |files| ==> r[i] == InlinePart(files[i])
  {
    if files == [] then [] else [InlinePart(files[0])] + InlineParts(files[1..])
  }

  /** What is sent to the service. */
  datatype Request = Request(model: string, systemInstruction: string, parts: seq<Part>)

  /** What the service answers: the chunks it streams, in order, and whether
      the stream then fails. */
  datatype Stream = Stream(chunks: seq<string>, failed: bool)

  /** What the generator delivers: the chunks it yields, then possibly the
      error it throws. */
  datatype Generation = Generation(chunks: seq<string>, error: Option<string>)

  /** The request for a mode entry and a persona key. */
  function BuildRequest(idea: string, files: seq<UploadedFile>, personas: seq<Persona>,
                        persona: string, mode: Mode): (r: Request)
    ensures r.model == ModelName
    ensures r.parts == Parts(idea, files)
    ensures PersonaInstruction(personas, persona) == "" ==> r.systemInstruction == mode.instruction
    ensures var p := PersonaInstruction(personas, persona);
      p != "" ==> p + "\n\n" <= r.systemInstruction && r.systemInstruction[|p| + 2..] == mode.instruction
  {
    Request(ModelName, SystemInstruction(PersonaInstruction(personas, persona), mode.instruction), Parts(idea, files))
  }

  /** `generateAdvancedPrompt`. A missing API key, an empty mode catalog and
      a failing stream all surface as the one fixed message; otherwise the
      chunks are yielded as the service streams them. */
  function GenerateAdvancedPrompt(hasApiKey: bool, idea: string, files: seq<UploadedFile>,
                                  modes: seq<Mode>, personas: seq<Persona>, persona: string, mode: string,
                                  service: Request -> Stream): (g: Generation)
    ensures g.error.Some? ==> g.error.value == FailureMessage
    ensures !hasApiKey || modes == [] ==> g == Generation([], Some(FailureMessage))
    ensures hasApiKey && modes != [] ==>
      var stream := service(BuildRequest(idea, files, personas, persona, ModeFor(modes, mode).value));
      g.chunks == stream.chunks && (g.error.Some? <==> stream.failed)
  {
    if !hasApiKey then Generation([], Some(FailureMessage))
    else match ModeFor(modes, mode)
      case None => Generation([], Some(FailureMessage))
      case Some(m) =>
        var stream := service(BuildRequest(idea, files, personas, persona, m));
        Generation(stream.chunks, if stream.failed then Some(FailureMessage) else None)
  }

  /** An idea with no files and the shipped catalogs: the text part is the
      idea header alone, there is no other part, and the 'default' persona
      leaves the 'detailed' instruction as it is. */
  lemma {:induction false} IdeaOnlyRequest(idea: string, modes: seq<Mode>, personas: seq<Persona>)
    requires ShippedModes(modes) && ShippedPersonas(personas)
    ensures var r := BuildRequest(idea, [], personas, "default", ModeFor(modes, "detailed").value);
      && r.parts == [TextPart(IdeaOpening + idea + "\"\n\n")]
      && r.systemInstruction == modes[0].instruction
  {
    ShippedPersonaLookup(personas, "default");
    ShippedModeLookup(modes, "detailed");
    assert ModeKeys[0] == "detailed";
    assert TextFiles([]) == [] && OtherFiles([]) == [];
    assert CombinedText(idea, []) == IdeaHeader(idea);
    assert Parts(idea, []) == [Parts(idea, [])[0]];
  }
}
