# AI Prompt Enhancer — a Dafny model of its core

The AI Prompt Enhancer is a browser application. A user types an idea, may
attach up to five files, and picks a persona and a prompt mode. A hosted
model then streams back an engineered prompt. Generations are kept in a
history list, and entries can be saved to a library.

This project models the parts of the application that decide what is
accepted, what is sent and what is remembered.

- **Upload admission** (`handleFileChange`, `Upload`). The loop admits files
  in submission order under three rules:
  - a count limit of 5, which stops the loop;
  - an inclusive size cap of 30 MiB, which skips the file with a notice;
  - a duplicate check, which skips the file silently. A file is a duplicate
    when a pending file has the same name or an in-flight entry has the same
    `name-lastModified-size` id.

  Admitted files are registered as in-flight entries. Each task then settles
  independently: it may append a record, it may raise an alert, and it
  always clears its entry.
- **Normalisation** (`processFile` and its extractors, `Extract`):
  - images and plain text pass through as the file's own base64 payload;
  - Word, spreadsheet and PDF text is re-encoded as a `text/plain` record
    with a whitespace-collapsed preview;
  - an empty extraction gives no record;
  - failures become notices or rejections exactly where the code raises
    them.
- **Transport encoding** (`toBase64` / `fromBase64`, `Transport`, `Utf8`,
  `Base64`). Text is carried as base64 (section 4 of RFC 4648) of its UTF-8
  bytes (RFC 3629). Both codecs are written out, and round trips are proved
  in both directions.
- **Context assembly** (`generateAdvancedPrompt`, `Catalog`, `Context`):
  - mode lookup with fallback to the first mode;
  - the persona instruction table built by a fold over the catalog;
  - the system instruction;
  - the split of files into text documents and inline parts;
  - the exact layout of the combined text;
  - the request and the generator's chunks-then-error behaviour.
- **The App store** (`App.tsx`, `App`):
  - the generate and refine handlers, with their blank-idea check, loading
    flags, running display text, history entry and error message;
  - saving to and removing from the library;
  - loading and deleting history entries;
  - the output panel's save button.

`Text` holds the JavaScript string operations the code relies on:
- `trim` with ECMAScript's white-space set;
- `replace(/\s+/g, ' ')`;
- ASCII `toLowerCase`;
- the last `.`-segment;
- decimal rendering of numbers.

`Seqs` holds filter and subsequence facts.

Details the code fixes that a reader might expect otherwise:
- The idea text always wraps the idea, as `User's core idea: "…"` followed
  by a blank line. It is never the bare idea.
- Duplicates against pending files are detected by name alone. The
  name-size-time id is compared only with in-flight entries.
- Meeting the file limit with files still left ends the admission loop
  with one notice. It does not reject each remaining file, and a batch
  that ends exactly at the limit raises no notice.
- A PDF that parses but holds no text still yields a record of blank lines.
- Plain-text uploads get no preview.
- On a failed generation the partial text stays displayed. It is only kept
  out of the history.

## Model

| member | source | states |
|---|---|---|
| Transport.ToBase64 | components/FileUpload.tsx:31-38 | the payload is empty exactly when the text is, and it is always well-formed base64 |
| Transport.FromBase64 | services/geminiService.ts:27-29 | an empty payload decodes to the empty text |
| Transport.RoundTrip | components/FileUpload.tsx:31-38 | decoding the payload of any text gives that text back exactly |
| Transport.DecodedPayloadIsEncoding | services/geminiService.ts:27-54 | a payload that decodes to non-empty text is the canonical encoding of that text |
| Utf8.DecodeEncode | components/FileUpload.tsx:33 | decoding the UTF-8 bytes of any string succeeds and yields that string |
| Utf8.EncodeDecode | services/geminiService.ts:27-54 | any byte string the strict decoder accepts is the encoding of what it decodes to |
| Utf8.DecodeEncodeChar | components/FileUpload.tsx:33 | the decoder reads back exactly the bytes of one encoded character, whatever follows them |
| Utf8.EncodeDecodeChar | services/geminiService.ts:27-54 | a character the decoder accepts re-encodes to exactly the bytes it consumed |
| Base64.DecodeEncode | components/FileUpload.tsx:33 | decoding the base64 text of any byte string yields those bytes |
| Base64.EncodeDecode | services/geminiService.ts:27-54 | any text the strict base64 decoder accepts is the encoding of its decoded bytes |
| Base64.Encode | components/FileUpload.tsx:33 | the encoding is four characters for every started group of three bytes |
| Base64.DecodeEncodeGroup | components/FileUpload.tsx:33 | each quantum of one to three bytes decodes back from its four characters, padded when short |
| Base64.EncodeDecodeGroup | services/geminiService.ts:27-54 | each accepted four-character quantum is the encoding of its bytes, padding included |
| Text.TrimStart | components/FileUpload.tsx:41 | the result is a suffix that starts with a non-space, and only white space was dropped |
| Text.TrimEnd | components/FileUpload.tsx:41 | the result is a prefix that ends with a non-space, and only white space was dropped |
| Text.TrimEmptyIffBlank | App.tsx:63 | trimming gives the empty string exactly when every character is white space |
| Text.CollapseWhitespace | components/FileUpload.tsx:41 | the collapsed text is empty only for an empty input, starts with a space exactly where the input starts with white space, and each space it holds stands alone |
| Text.CollapseKeepsVisible | components/FileUpload.tsx:41 | collapsing keeps exactly the visible characters, in order |
| Text.CollapseRun | components/FileUpload.tsx:41 | a maximal white-space run between two visible parts becomes exactly one space, and the parts on either side collapse on their own |
| Text.CollapseCons | components/FileUpload.tsx:41 | a visible character in front is kept in front, with the rest collapsed on its own |
| Text.CollapseKeepsWord | components/FileUpload.tsx:41 | a text without white space is left exactly as it is, so no space is ever put inside a word |
| Text.NormalizeSpec | components/FileUpload.tsx:41 | the cleaned text has no leading, trailing or doubled white space and keeps every visible character in order |
| Text.NormalizeJoin | components/FileUpload.tsx:41 | two texts with visible content joined by any white-space run clean to their cleaned forms joined by one space |
| Text.NormalizeIdempotent | components/FileUpload.tsx:41 | cleaning an already cleaned text changes nothing |
| Text.NormalizedFixed | components/FileUpload.tsx:41 | a text with no white space at its ends and only single spaces between visible characters is its own cleaned form |
| Text.LowerAscii | components/FileUpload.tsx:130 | letters A to Z are lowered and every other character is kept |
| Text.LastSegment | components/FileUpload.tsx:130 | the extension is the text after the last dot, or the whole name when there is none |
| Text.DecimalRoundTrip | components/FileUpload.tsx:177 | the decimal rendering of a size reads back as that size |
| Text.NatToDecimalInjective | components/FileUpload.tsx:177 | distinct sizes render as distinct digit strings |
| Text.ConcatAppend | App.tsx:79-82 | accumulating chunk after chunk equals concatenating the groups of chunks |
| Extract.CreateTextPreview | components/FileUpload.tsx:40-46 | the preview is the cleaned text when it fits in the limit; otherwise it is the cleaned text cut at the limit, less the last character exactly when that is a space, followed by "..." (just "..." for a zero limit), so never longer than the limit plus 3 |
| Extract.PreviewIsPrefixSummary | components/FileUpload.tsx:40-46 | the preview body is itself clean and holds the text's visible characters, or a prefix of them |
| Extract.TextRecord | components/FileUpload.tsx:61-74 | non-empty text gives a text/plain record whose payload decodes back to the text and whose preview is that text's preview; empty text gives none |
| Extract.ProcessFileWellFormed | components/FileUpload.tsx:129-151 | every record with a preview is text/plain, and its payload decodes to the non-empty text the preview summarises |
| Extract.ExtractedTextDispatch | components/FileUpload.tsx:129-151 | a readable file whose extractor ran is published as the record of that text, and only passthrough files publish without extracted text |
| Extract.DispatchDocx | components/FileUpload.tsx:61-74 | a .docx file yields the record of mammoth's raw text, and nothing when the extraction threw |
| Extract.DispatchXlsx | components/FileUpload.tsx:76-94 | a spreadsheet yields the record of its sheets' text, and nothing when the parse threw |
| Extract.DispatchPdf | components/FileUpload.tsx:96-126 | a PDF yields the record of its pages' text, and nothing when pdf.js failed |
| Extract.PassthroughSpec | components/FileUpload.tsx:48-59 | an image or plain-text file is rejected exactly when it cannot be read; otherwise it keeps its type, has no preview, and its payload decodes to its bytes |
| Extract.ExtractorSpec | components/FileUpload.tsx:61-126 | an extractor publishes exactly when its text is non-empty, as text/plain with a payload that decodes to the text and the text's preview; empty text publishes nothing and raises no notice |
| Extract.FailureSpec | components/FileUpload.tsx:96-151 | an unsupported type gives a notice and no record; an unreadable PDF gives a notice; an unreadable file or a thrown Word or spreadsheet parse rejects |
| Extract.WorkbookTextAppend | components/FileUpload.tsx:79-83 | the workbook text is the sheets' texts in order, each followed by a blank line |
| Extract.PdfTextAppend | components/FileUpload.tsx:100-109 | the document text is the pages' texts in order, each followed by a blank line |
| Extract.PageTextEmpty | components/FileUpload.tsx:104-107 | a page's text is empty exactly when all its text items are empty |
| Extract.JoinEmpty | components/FileUpload.tsx:104-107 | joining with a separator is empty exactly for no parts or one empty part |
| Extract.PdfWithoutText | components/FileUpload.tsx:100-120 | a PDF whose pages hold no text still gives one blank line per page, so only a page-less PDF gives no record |
| Upload.Admissibles | components/FileUpload.tsx:172-182 | the list keeps the batch's order, holds only admissible files, and holds every admissible file of the batch |
| Upload.Admit | components/FileUpload.tsx:166-183 | nothing is admitted once the count is at the limit, and otherwise the total never passes 5 |
| Upload.OversizeNotices | components/FileUpload.tsx:172-175 | one "too large" alert per file over the cap, naming it, and none when every file fits |
| Upload.LimitPoint | components/FileUpload.tsx:166-171 | the loop stops at the first index where pending, in-flight and admissible files reached so far meet the limit, or at the end of the batch |
| Upload.NoticesOf | components/FileUpload.tsx:166-175 | a "too many files" alert is raised exactly when the limit point falls before the end of the batch, only as the last alert, and every other alert is a "too large" one |
| Upload.AdmitNotices | components/FileUpload.tsx:166-183 | the loop's alerts are exactly the "too large" alerts of the oversize files before the limit point, then one "too many files" alert when files are left |
| Upload.OversizeAlerted | components/FileUpload.tsx:172-175 | an oversize file reached before the limit point is alerted by name |
| Upload.AdmitSubseq | components/FileUpload.tsx:166-183 | the admitted files are a subsequence of the batch in submission order, and each is within the size cap and not a duplicate |
| Upload.AdmitBound | components/FileUpload.tsx:168-171 | at most max(0, 5 − pending − in-flight) files are admitted |
| Upload.AdmitSplit | components/FileUpload.tsx:166-183 | admitting a batch in two parts equals admitting it at once, with the second part counting the first part's admissions |
| Upload.AdmitStopsAtLimit | components/FileUpload.tsx:168-171 | once the limit is reached within a prefix, the rest of the batch is never admitted |
| Upload.AdmitAllWhenRoom | components/FileUpload.tsx:166-183 | with room for every admissible file, exactly the admissible files are admitted, in order |
| Upload.AdmissiblesEmpty | components/FileUpload.tsx:185-188 | a batch with no admissible file admits nothing |
| Upload.DuplicateSkippedSilently | components/FileUpload.tsx:177-182 | a duplicate below the limit and the size cap is skipped with no notice and no effect on the rest |
| Upload.ExactCapAdmitted | components/FileUpload.tsx:172-175 | a file of exactly 30 MiB is admitted, because the cap is inclusive |
| Upload.SelectFiles | components/FileUpload.tsx:157-212 | pending files are untouched; one task per admitted file, in order, keyed by its id; in-flight entries are the old ones followed by one per task |
| Upload.SelectNotices | components/FileUpload.tsx:166-175 | a selection raises exactly the alerts of the loop-free description: "too large" alerts before the limit point, then one "too many files" alert when files are left |
| Upload.SelectKeepsLimit | components/FileUpload.tsx:166-190 | selection keeps pending plus in-flight files within 5 |
| Upload.RemoveEntries | components/FileUpload.tsx:205 | the entries that remain are the old ones without the id, in order; at least one goes when the id was in flight, and the list is unchanged when it was not |
| Upload.RemoveEntriesCount | components/FileUpload.tsx:205 | every copy of an entry with the id is dropped and every copy of any other entry is kept |
| Upload.Apply | components/FileUpload.tsx:193-206 | a produced record is appended after the pending files with no alert, a rejection raises an alert naming the file, and a settlement without a record passes on the extractor's own alert; the in-flight list loses every entry with the task's id and keeps every copy of the others |
| Upload.Settle | components/FileUpload.tsx:193-206 | a settled task appends its record if any with no alert, alerts on rejection, passes on the extractor's alert when there is no record, and leaves no entry with its id |
| Upload.SettleNeverGrows | components/FileUpload.tsx:193-206 | settling an in-flight task never increases pending plus in-flight files |
| Upload.SettleAllSpec | components/FileUpload.tsx:193-206 | after any sequence of settlements the pending files are the old ones plus each produced record in settlement order, and exactly the unsettled entries remain |
| Upload.RemoveThenKeep | components/FileUpload.tsx:205 | removing one id and then the settled ids removes the union |
| Upload.KeepNothing | components/FileUpload.tsx:205 | with nothing settled every entry remains |
| Upload.PublishedAppend | components/FileUpload.tsx:196-198 | the records published by two runs of settlements are those of each run, in order |
| Upload.PublishedPermutation | components/FileUpload.tsx:193-206 | settling the same tasks in another order publishes the same records |
| Upload.SettleOrderIndependent | components/FileUpload.tsx:193-206 | the order in which parallel tasks settle changes only the order of the records, never which ones or which entries remain |
| Upload.ReselectWhileInFlight | components/FileUpload.tsx:177-182 | re-selecting a file still in flight admits nothing and changes nothing |
| Upload.ReselectAfterPublish | components/FileUpload.tsx:179-182 | once a file's record is published, a file with the same name is not admitted |
| Upload.RemoveFile | components/FileUpload.tsx:214-216 | removal drops exactly the file at the index and shifts the later ones; an index out of range changes nothing |
| Upload.RemoveFileReinsert | components/FileUpload.tsx:214-216 | putting the removed file back at its index restores the list |
| Catalog.FindMode | services/geminiService.ts:75 | the lookup finds the first mode with the key, and nothing only when no mode has it |
| Catalog.ModeFor | services/geminiService.ts:75-76 | a known key gives its mode, an unknown key the first mode, and only an empty catalog gives nothing |
| Catalog.InstructionMap | services/geminiService.ts:15-20 | the table has exactly the keys of personas with an instruction, and no empty entry |
| Catalog.PersonaInstructionSpec | services/geminiService.ts:78 | the lookup is empty exactly when no persona with the key has an instruction; otherwise it is the last such persona's instruction |
| Catalog.DistinctKeyLookup | services/geminiService.ts:15-20 | with distinct keys, each persona's key looks up that persona's own instruction |
| Catalog.PersonaKeysDistinct | data/personas.ts:16-101 | the twelve shipped persona keys are pairwise distinct |
| Catalog.ShippedPersonaLookup | data/personas.ts:16-101 | with the shipped catalog, 'default' and unknown keys give no instruction and every other persona gives its own |
| Catalog.ShippedModeLookup | data/promptModes.ts:3-74 | with the shipped catalog, an unknown mode falls back to 'detailed' and each known key gives its own mode |
| Context.SystemInstruction | services/geminiService.ts:78-79 | a persona instruction comes first, then a blank line, then the mode instruction; with none, the mode instruction alone |
| Context.SplitFiles | services/geminiService.ts:81-82 | text files and other files separate the uploads: each group holds only its kind, together they hold every file as often as it was given, and each keeps the upload order |
| Context.CombinedText | services/geminiService.ts:84-95 | the text starts with the idea header and is the header alone exactly when no text file was given |
| Context.MarkersWithoutContent | services/geminiService.ts:86-94 | text files that all decode to nothing still leave both markers with nothing between them |
| Context.BlocksOfEmpty | services/geminiService.ts:88-93 | files that decode to nothing contribute no block |
| Context.DocumentBlocksAppend | services/geminiService.ts:88-93 | the blocks of two lists of files are the blocks of each, in order |
| Context.CombinedTextIgnoresOthers | services/geminiService.ts:81-95 | non-text files have no effect on the combined text |
| Context.CombinedTextInjective | services/geminiService.ts:84 | different ideas always give different texts for the same files |
| Context.LoneTextFile | services/geminiService.ts:84-95 | one text file with content gives the header, the markers and that file's labelled content |
| Context.UploadedTextReachesContext | services/geminiService.ts:84-95 | a record made from extracted text reaches the model as exactly that text under the file's name |
| Context.Parts | services/geminiService.ts:57-64 | the parts are the combined text followed by one inline part per non-text file, in order, carrying its payload and type unchanged |
| Context.Assemble | services/geminiService.ts:97-102 | the text part comes first, followed by each attachment in order |
| Context.InlineParts | services/geminiService.ts:101 | each file maps to one inline part, in order |
| Context.BuildRequest | services/geminiService.ts:104-110 | the request names the fixed model, carries the parts, and puts the persona instruction and a blank line before the mode instruction when there is a persona instruction |
| Context.GenerateAdvancedPrompt | services/geminiService.ts:66-119 | a missing key or empty mode catalog yields no chunk and the fixed failure; otherwise the service's chunks are yielded, and the fixed failure follows exactly when the stream fails |
| Context.IdeaOnlyRequest | services/geminiService.ts:75-110 | an idea with no files, the default persona and the detailed mode sends only the idea header, under the detailed instruction unchanged |
| App.RunningTotals | App.tsx:78-82 | after each chunk the displayed text is the concatenation of the chunks so far |
| App.RunningTotalsGrow | App.tsx:78-82 | each displayed text extends the previous one, and the last is the whole response |
| App.Commit | App.tsx:62-107 | a blank idea only sets the error; otherwise the response is the chunks' concatenation, success prepends one history item and clears the error, failure keeps the history and sets the prefixed message, and the flag of the track in use ends cleared |
| App.HandleGenerate | App.tsx:62-107 | a service failure leaves the history as it was with the fixed message, and the displayed text is what the service streamed for the request built from the state |
| App.CommitKeepsIdsUnique | App.tsx:85-93 | with a fresh id the history's ids stay distinct |
| App.Refine | App.tsx:111-114 | a refinement is ignored unless the panel is shown and the instruction is not blank; otherwise both flags end cleared and success prepends an item for the refinement template |
| App.RefinementIdeaNotBlank | App.tsx:111-114 | the refinement template is never blank, so it is never refused as an empty idea |
| App.SaveToLibrary | App.tsx:158-162 | after saving, the item's id is in the library; a present id changes nothing and a new one is prepended |
| App.SaveIdempotent | App.tsx:158-162 | saving the same item twice is saving it once |
| App.SaveKeepsIdsUnique | App.tsx:158-162 | saving keeps the library's ids distinct |
| App.RemoveById | App.tsx:164-166 | no item with the id remains, every other item remains, and a missing id changes nothing |
| App.RemoveUndoesSave | App.tsx:158-166 | removing a newly saved item restores the library |
| App.RemoveByIdSubseq | App.tsx:164-166 | filtering keeps the remaining items in their order |
| App.RemoveFromLibrary | App.tsx:164-166 | the id leaves the library and nothing else changes |
| App.DeleteFromHistory | App.tsx:177-181 | the id leaves both history and library, every other item stays in order, and nothing else changes |
| App.LoadFromHistory | App.tsx:168-175 | loading restores the item's idea, prompt, persona and mode, clears the files, opens the create tab and keeps everything else |
| App.LoadLatestRestores | App.tsx:62-107 | loading the item a successful generation just recorded restores that generation's idea, response, persona and mode |
| App.SaveLatest | App.tsx:229-233 | the save button leaves the newest history entry saved and changes only the library, and does nothing with an empty history |
| App.SaveAfterGenerate | App.tsx:85-93 | saving right after a generation puts that response at the head of the library, and pressing save again changes nothing |

## Left out

- **UTF-16 and lone surrogates.** JavaScript strings are UTF-16. Strings here are sequences of Unicode scalar values:
  - a lone surrogate cannot occur, so the `catch` of `toBase64` that returns "" is unreachable in the model;
  - `createTextPreview` lengths count scalar values, not UTF-16 code units.
- Transport.FromBase64: the runtime decoder's chain of fallbacks (Buffer, `atob`, percent-decoding, the raw string) is modelled as one strict decoder that gives "" for any malformed payload. Its guesses on malformed input are not modelled.
- **`chunk.text`.** A stream chunk is a string. A chunk whose `text` is undefined, which would append "undefined", is not modelled.
- **Persona table keys.** `PERSONA_INSTRUCTIONS` is a plain object. Keys such as `constructor` that reach `Object.prototype` are not modelled.
- App.HandleGenerate: generation is one atomic step. The stale `history` captured by the callback, and interleaving with other handlers during the stream, are not modelled.
- **Concurrent tasks.** Parallel upload tasks settle one at a time, in any order. Interleavings within one task's state updates are not modelled.
- **Library parsers are inputs.** The outputs of mammoth, SheetJS and pdf.js, and whether they throw, are fields of the raw file. Their parsing is not modelled.
- **File reading is an input.** Whether the file can be read is also a field of the raw file.
- **Catalog text is a parameter.** The instruction prose of modes and personas is a parameter. The shipped catalogs are described by their keys and by which instructions are empty.
- **Environment is a parameter.** These are all parameters:
  - `crypto.randomUUID`;
  - `Date.now`;
  - the API key;
  - the model service.
- **Non-ASCII lower-casing.** `toLowerCase` on non-ASCII letters in extensions is not modelled. Only A to Z are lowered.
- **Persistence and UI.** Persistence to `localStorage` and its JSON encoding are not modelled. Neither are rendering, the input element reset and `console` output.
- **Other service calls.** `generateLuckyPrompt`, `analyzePrompt` and their handlers are not modelled. They are not part of the generation path.
- Context.GenerateAdvancedPrompt: an empty mode catalog is treated as a failure. The code would throw a TypeError inside its `try`, which surfaces as the same fixed message.
- Upload.Admit: two files with the same id in one batch are both admitted. The in-flight check only sees entries registered before the batch. The model keeps this behaviour and states no uniqueness for it.
