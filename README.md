# grist-artifacts: a verified model of the artifact pipeline

grist-artifacts is a Grist custom widget. A language model writes a React
component for it, and the widget evaluates that component inside Grist.
This project models, in Dafny, the core of that pipeline:

- **The structured-component extractor** (`extractPendingStructuredComponents`).
  It re-scans the growing model output for the pseudo-XML tags
  `<grist_artifact_full>`, `<grist_artifact_update>` and
  `<grist_artifact_purpose>`. Each regular expression is written out as an
  index search (module `Text`, module `Extractor`). The leftmost-match and
  lazy-group semantics of each pattern are proved next to it in `Extractor`:
  `OpenTagLeftmost` for the opening tags, `CompleteBlocksFound` and its two
  companions for the `matchAll` of update blocks, `IncompleteUpdateFound`
  and its companions for the unfinished update, and the sub-tag lemmas. The
  properties of whole extractions are in module `ExtractorProperties`.
- **The streaming reducer of `nextMessage`** (module `Reducer`). Class
  `ArtifactStream` holds the accumulated text and the list of updates
  applied so far. `Step` handles one chunk:
  - it applies the new complete updates in order, starting again from the
    original code;
  - it yields the record the handler emits.

  `NextMessage` feeds a whole chunk sequence through it. The method is
  proved against the pure reduction `Reduce` and the run `Run`. Their
  properties are in module `ReducerProperties`:
  - de-duplication by (instruction, description) pair;
  - retry of a failed update;
  - the `finishedArtifact` rule;
  - records are never revised;
  - the settling of a closed region.
- **The Grist helpers** (module `Grist`):
  - column-to-row conversion (a method with nested loops);
  - the recursive trim to three array members;
  - `areSetsEqual`, which compares the size and the members of two `Set`s;
  - the option-backed atom, as a class with `Read` and `Write`;
  - the selected-rows guard, as a class that calls Grist only when the
    selection changes as a set.
- **The compiler's text rewriting** (module `Compiler`):
  - `removeDefaultExport`, with its three regular expressions, their
    leftmost matching and JavaScript `trim`;
  - the Babel import-transformer plugin on a small AST.

The update applier (`applyUpdate`, a language-model call) is a parameter of
type `(instruction, code, description) -> Option<string>`. `None` stands
for a call that throws.

Points of the source's behaviour worth knowing:
- The extractor reads update blocks with `<instruction>` and
  `<update_description>` sub-tags, and hands each complete update to the
  language-model applier. There is no exact-match patch applier.
- Each chunk applies its new updates to the ORIGINAL artifact. The updates
  applied in earlier chunks are not replayed (`FinishedRevertsToOriginal`).
- The incomplete update is reported only when no closing update tag occurs
  at or after the first opening one.
- An unfinished region's content is not always a prefix of its later
  content. A closing tag split across two chunks makes it shrink
  (`SplitClosingTagShrinksContent`). The property that does hold is
  `RegionGrowsWithinAppended`: the new content is a prefix of the old
  content followed by the appended text.

## Model

| member | source | states |
|---|---|---|
| Text.IndexOf | app/orpc/ai.server.ts:162 | `indexOf`/`includes` as an index search; its meaning is stated by `IndexOfSpec` |
| Text.IndexOfSpec | app/orpc/ai.server.ts:162 | `indexOf`/`includes`: the index found is an occurrence at or after the start, and no earlier occurrence is skipped |
| Extractor.OpenTagLeftmost | app/orpc/ai.server.ts:157-159 | `open[^>]*>` matches at the reported start, the content begins after the first `>` following the tag name, and the pattern matches nowhere earlier |
| Extractor.ExtractPendingStructuredComponents | app/orpc/ai.server.ts:151-239 | the whole extractor; stated by `ExtractNoneIff`, `FullTagIsFound`, `RegionSpec`, `IncompleteUpdateIsAlone`, and for the update texts by `CompleteBlocksFound` and `IncompleteUpdateFound` with the sub-tag lemmas |
| Extractor.Region | app/orpc/ai.server.ts:157-168 | the full-artifact and purpose match with its completeness flag; stated by `RegionSpec` and `OpenTagLeftmost` |
| Extractor.CompleteBlocks | app/orpc/ai.server.ts:171-173 | the `matchAll` of complete update blocks; stated by `CompleteBlocksFound`, `CompleteBlocksUnclosed`, `CompleteBlocksNoOpen`, `CompleteBlocksHaveNoClose` and `CompleteBlocksPrefix` |
| Extractor.OpenTagIs | app/orpc/ai.server.ts:157-159 | the leftmost position where `open[^>]*>` matches, with the first `>` after the tag name, is the match found, content starting after that `>` |
| Extractor.CompleteBlocksFound | app/orpc/ai.server.ts:171-177 | with the leftmost opening tag at or after the scan position, its first `>` at `g` and the first closing tag after it at `c`, the blocks are the text between them followed by the blocks found from just past that closing tag |
| Extractor.CompleteBlocksUnclosed | app/orpc/ai.server.ts:171-173 | with no closing tag after the leftmost opening tag's `>`, no further block is found |
| Extractor.CompleteBlocksNoOpen | app/orpc/ai.server.ts:171-173 | with no opening tag at or after the scan position, no further block is found |
| Extractor.IncompleteUpdate | app/orpc/ai.server.ts:197-222 | the trailing unfinished update; stated by `IncompleteUpdateFound`, `IncompleteUpdateClosed`, `IncompleteUpdateNoOpen` and `IncompleteUpdateIsAlone` |
| Extractor.IncompleteUpdateFound | app/orpc/ai.server.ts:197-222 | with the leftmost update opening tag at `p`, its first `>` at `g` and no closing update tag from `p` on, the unfinished update is parsed from everything after that `>` |
| Extractor.IncompleteUpdateClosed | app/orpc/ai.server.ts:197-201 | a closing update tag at or after the leftmost opening tag suppresses the unfinished update |
| Extractor.IncompleteUpdateNoOpen | app/orpc/ai.server.ts:197-201 | without an update opening tag there is no unfinished update |
| Extractor.SubTagComplete | app/orpc/ai.server.ts:180-191 | the complete sub-tag match; stated by `SubTagCompleteFound`, `SubTagCompleteUnclosed` and `SubTagCompleteSpec` |
| Extractor.SubTagCompleteFound | app/orpc/ai.server.ts:180-191 | with the first opening sub-tag at `p` and the first closing one after it at `c`, the match is the text between them |
| Extractor.SubTagCompleteUnclosed | app/orpc/ai.server.ts:180-191 | with no closing sub-tag after the first opening one, the field is "" |
| Extractor.SubTagCompleteSpec | app/orpc/ai.server.ts:180-191 | the field is "" when either sub-tag is absent, and its text never holds the closing sub-tag |
| Extractor.SubTagLenient | app/orpc/ai.server.ts:205-212 | the lenient sub-tag match of the unfinished update; stated by the three lemmas below |
| Extractor.SubTagLenientClosed | app/orpc/ai.server.ts:205-219 | with a closing sub-tag after the first opening one, the lenient match stops at the first such closing sub-tag |
| Extractor.SubTagLenientUnclosed | app/orpc/ai.server.ts:205-219 | with no closing sub-tag after the first opening one, the lenient match runs to the end of the content |
| Extractor.SubTagLenientNoOpen | app/orpc/ai.server.ts:205-219 | without the opening sub-tag, the field is "" |
| ExtractorProperties.NoOpenTagWithoutPrefix | app/orpc/ai.server.ts:157-158 | an opening tag beginning with `<grist_artifact_` matches nowhere that prefix is absent |
| ExtractorProperties.PlainTextHasNoComponents | app/orpc/ai.server.ts:238 | text without `<grist_artifact_` yields `undefined` |
| ExtractorProperties.RegionSpec | app/orpc/ai.server.ts:157-168 | a region is reported exactly when its opening pattern matches somewhere; it is complete exactly when the closing tag occurs anywhere in the text |
| ExtractorProperties.FullTagIsFound | app/orpc/ai.server.ts:157-168 | whenever a full opening tag matches, the result is defined and holds the full artifact |
| ExtractorProperties.IncompleteUpdateIsAlone | app/orpc/ai.server.ts:197-222 | the incomplete update appears only when no complete block exists, so it is then the only update; every other entry is complete |
| ExtractorProperties.ExtractNoneIff | app/orpc/ai.server.ts:238 | `undefined` exactly when neither the full nor the purpose tag matches and no update entry is produced |
| ExtractorProperties.CompleteUpdatesShape | app/orpc/ai.server.ts:171-194 | each complete entry is flagged complete and its sub-tag texts hold no closing sub-tag; the incomplete entry is flagged incomplete |
| ExtractorProperties.UpdatesEmptyOnlyIfCloseInsideTag | app/orpc/ai.server.ts:198-203 | once an update opening tag matches, the update list is empty exactly when a closing update tag lies inside the opening tag and none after it |
| ExtractorProperties.OpenTagExtend | app/orpc/ai.server.ts:157-159 | appending text never moves a leftmost opening tag that is already complete |
| ExtractorProperties.NextBlockExtend | app/orpc/ai.server.ts:171-173 | a complete block found in a text is found unchanged in every extension |
| ExtractorProperties.CompleteBlocksPrefix | app/orpc/ai.server.ts:171-173 | the complete blocks of a text are the first complete blocks of every text that starts with it |
| ExtractorProperties.CompleteBlocksExtend | app/orpc/ai.server.ts:171-173 | the complete blocks of a text are the first blocks of every extension of it |
| ExtractorProperties.CompleteUpdatesExtend | app/orpc/ai.server.ts:171-194 | the complete updates of a text are a prefix of those of every extension |
| ExtractorProperties.CompleteBlocksHaveNoClose | app/orpc/ai.server.ts:171-177 | no complete block holds its closing tag (the lazy group stops at the first one) |
| ExtractorProperties.TwoBlocksExample | app/orpc/ai.server.ts:171-177 | `<grist_artifact_update a>x</grist_artifact_update><grist_artifact_update>y</grist_artifact_update>` yields the blocks `x` and `y`, in order |
| ExtractorProperties.UnfinishedUpdateExample | app/orpc/ai.server.ts:197-222 | `<grist_artifact_update><instruction>ab` yields an unfinished update with instruction `ab`, an empty description and the incomplete flag |
| ExtractorProperties.WrappedOpenTag | app/orpc/ai.server.ts:157-158 | `open attrs>` at the start (attrs without `>`) matches at 0 and its content starts after the `>` |
| ExtractorProperties.RegionOfWrappedTag | app/orpc/ai.server.ts:157-168 | `open attrs>x close` yields content `x`, complete, when `x` holds no closing tag |
| ExtractorProperties.FullArtifactExample | app/orpc/ai.server.ts:157-168 | the literal `<grist_artifact_full>X</grist_artifact_full>` yields `X`, complete |
| ExtractorProperties.RegionFixedOnceClosed | app/orpc/ai.server.ts:157-168 | once the closing tag follows the content start, appending text never changes the region |
| ExtractorProperties.OpenRegionContent | app/orpc/ai.server.ts:158 | an open region's content runs to the end of the text |
| ExtractorProperties.RegionGrowsWithinAppended | app/orpc/ai.server.ts:157-161 | an existing region stays, and its new content is a prefix of the old content followed by the appended text |
| ExtractorProperties.RegionGrowsUnlessSplitClose | app/orpc/ai.server.ts:157-161 | an open region's content only grows unless the appended text completes a closing tag begun in the old text |
| ExtractorProperties.UnclosedRegion | app/orpc/ai.server.ts:157-161 | `open>body` with no closing tag in `body` yields all of `body`, incomplete |
| ExtractorProperties.SplitClosingTagShrinksContent | app/orpc/ai.server.ts:157-161 | a closing tag split across two chunks makes the content shrink |
| ExtractorProperties.ClosingTagBeforeOpeningCounts | app/orpc/ai.server.ts:162-167 | a closing tag before the opening one marks an unterminated region complete |
| Reducer.NewCompleteUpdates | app/orpc/ai.server.ts:77-86 | the filter of new complete updates; stated by `NewCompleteUpdatesMembers` and `NewCompleteUpdatesAppend` |
| Reducer.NewCompleteUpdatesMembers | app/orpc/ai.server.ts:77-86 | an update is kept exactly when it is listed, complete and its pair is not applied yet |
| Reducer.NewCompleteUpdatesAppend | app/orpc/ai.server.ts:78-86 | the filter distributes over concatenation: order and multiplicity are kept |
| Reducer.DuplicatesInOneChunkBothKept | app/orpc/ai.server.ts:78-86 | two equal complete blocks first seen in one chunk are both kept |
| Reducer.ApplyAllRecordsFromList | app/orpc/ai.server.ts:90-103 | only listed updates are recorded, never more often than listed |
| Reducer.ApplyAll | app/orpc/ai.server.ts:88-104 | the sequential application loop; stated by `ApplyAllTrace` and `ApplyAllChain` |
| Reducer.ApplyAllChain | app/orpc/ai.server.ts:90-103 | the final code is the starting code with the recorded updates applied in order, each call succeeding on the code produced before it |
| Reducer.ApplyAllTrace | app/orpc/ai.server.ts:88-104 | the recorded updates are picked from the list in order, each succeeds on the code produced so far, and every skipped update failed on the code current when it was offered, leaving that code unchanged |
| Reducer.ApplyAllNothingRecorded | app/orpc/ai.server.ts:90-103 | when nothing is recorded, the code is unchanged |
| Reducer.ApplyAllTotal | app/orpc/ai.server.ts:90-103 | with an applier that never fails, every update is recorded in order |
| Reducer.Reduce | app/orpc/ai.server.ts:59-125 | one iteration of the handler loop; stated by `StepAppendsNewUpdates`, `FinishedArtifactRule` and `RecordRegions` |
| Reducer.Run | app/orpc/ai.server.ts:59-126 | one record per chunk |
| Reducer.ArtifactStream.constructor | app/orpc/ai.server.ts:56-57 | empty accumulated text, no update applied |
| Reducer.ArtifactStream.ApplyInOrder | app/orpc/ai.server.ts:88-104 | the loop yields the code and the recorded updates of the sequential application, leaving the text unchanged |
| Reducer.ArtifactStream.Step | app/orpc/ai.server.ts:59-125 | the chunk is appended, and the applied list and the yielded record are the reduction of the old state |
| Reducer.NextMessage | app/orpc/ai.server.ts:56-126 | the yielded records are the run of the handler's reduction over the chunks |
| ReducerProperties.ExtractedUpdates | app/orpc/ai.server.ts:62-76 | the update list the handler reads is the extractor's list |
| ReducerProperties.RecordRegions | app/orpc/ai.server.ts:107-115 | `pendingArtifact` and `artifactPurpose` are the region contents, complete or not |
| ReducerProperties.CompleteUpdateStays | app/orpc/ai.server.ts:171-194 | a complete update's pair, once in the text, stays among the complete updates |
| ReducerProperties.StepAppendsNewUpdates | app/orpc/ai.server.ts:73-104 | a chunk only appends to the applied list; each appended update is complete, in the text and not applied before; the chunk's code is the original with exactly the appended updates applied in order, each succeeding on the code before it |
| ReducerProperties.RecordedNeverReapplied | app/orpc/ai.server.ts:78-86 | no update with the same (instruction, description) pair as a recorded one is applied again |
| ReducerProperties.UnrecordedUpdateIsRetried | app/orpc/ai.server.ts:78-102 | a complete update still unrecorded (its application failed) is offered again on the next chunk |
| ReducerProperties.FinishedArtifactRule | app/orpc/ai.server.ts:65-122 | `finishedArtifact` is the complete non-empty full artifact; else, once any update was applied, the original code with this chunk's updates; else undefined |
| ReducerProperties.FinishedRevertsToOriginal | app/orpc/ai.server.ts:72-122 | when every update was applied in earlier chunks and no finished full artifact exists, the finished artifact is the original code |
| ReducerProperties.HandlerSteps | app/orpc/ai.server.ts:59-125 | the handler's step keeps the text, only appends to the applied list and reports the full region |
| ReducerProperties.RunRecords | app/orpc/ai.server.ts:117-119 | each record's `fullResponse` is the concatenation of the chunks so far and `nextPart` the current chunk |
| ReducerProperties.RunExtends | app/orpc/ai.server.ts:56-126 | a longer run extends a shorter one: earlier records are kept and the applied list only grows |
| ReducerProperties.RunText | app/orpc/ai.server.ts:60 | the accumulated text is the concatenation of the chunks |
| ReducerProperties.RecordIsStep | app/orpc/ai.server.ts:59-125 | record `k` is the step's record on the text after chunk `k` |
| ReducerProperties.RecordReportsRegion | app/orpc/ai.server.ts:108-110 | record `k` reports the full region of the text after chunk `k` |
| ReducerProperties.RunExtends' | app/orpc/ai.server.ts:117-125 | records are never revised, for any step |
| ReducerProperties.FullRegionSettles | app/orpc/ai.server.ts:108-110 | once closed after chunk `i`, the pending full artifact is the same after every later chunk |
| Grist.ColumnFormatToRows | app/lib/grist.client.ts:33-47 | one row per entry of the first column; every row has every column key, holding that column's `i`-th value or `undefined` |
| Grist.RowAt | app/lib/grist.client.ts:39-42 | row `i` has exactly the record's column keys, each holding that column's `i`-th value or `undefined` |
| Grist.TrimToThree | app/lib/grist.client.ts:186-199 | `recursiveTrimToThreeArrayMembers`; stated by `TrimBounds`, `TrimKeepsSmall` and `TrimShape` |
| Grist.TrimBounds | app/lib/grist.client.ts:186-199 | every array in the trimmed value has at most three members |
| Grist.TrimKeepsSmall | app/lib/grist.client.ts:186-199 | a value whose arrays already have at most three members is unchanged |
| Grist.TrimIdempotent | app/lib/grist.client.ts:186-199 | trimming twice is trimming once |
| Grist.TrimShape | app/lib/grist.client.ts:186-199 | arrays keep their first members (trimmed), objects keep their keys in order, scalars are unchanged |
| Grist.Dedup | app/lib/grist.client.ts:314-315 | `new Set(arr)`; stated by `DedupSpec` |
| Grist.DedupSpec | app/lib/grist.client.ts:314-315 | `new Set(arr)`: distinct, with the same elements |
| Grist.AreSetsEqual | app/lib/grist.client.ts:309-326 | false on different lengths; true exactly when the lengths agree and the element sets agree |
| Grist.SameElementsReflexiveSymmetric | app/lib/grist.client.ts:309-326 | set equality of arrays is reflexive and symmetric |
| Grist.SameElementsIgnoresMultiplicity | app/lib/grist.client.ts:309-326 | `[1,1,2]` and `[1,2,2]` compare equal |
| Grist.GristBackedAtom.constructor | app/lib/grist.client.ts:206-214 | not updated in this mount session; value is the default |
| Grist.GristBackedAtom.Read | app/lib/grist.client.ts:216-229 | before a write: the Grist option, or the default when it is null or undefined; after: the value written |
| Grist.GristBackedAtom.Write | app/lib/grist.client.ts:230-240 | the option is sent to Grist, and every later read returns the written value whatever the options say |
| Grist.SelectedRows.constructor | app/lib/grist.client.ts:329-331 | no rows selected, no call made |
| Grist.SelectedRows.SetSelectedRows | app/lib/grist.client.ts:333-339 | Grist is called and the rows stored exactly when they differ as a set; afterwards the stored rows equal the new ones as a set |
| Compiler.RemoveDefaultExport | app/lib/compiler.client.ts:86-119 | `removeDefaultExport`; stated by `DeclarationTakesPrecedence`, `DeclarationRewritesFirstKeyword`, `FallbackRemovesLeftmost` and `NoExportUnchanged` |
| Compiler.RewriteKeyword | app/lib/compiler.client.ts:104-108 | the keyword rewrite of the declaration branch; stated by `DeclarationRewritesFirstKeyword` and `RewriteKeywordTrimmed` |
| Compiler.Trim | app/lib/compiler.client.ts:106-108 | JavaScript `trim`; stated by `TrimSpec` |
| Compiler.FirstMatchSpec | app/lib/compiler.client.ts:99-110 | `String.match` finds the leftmost match, and finds one whenever the pattern matches somewhere |
| Compiler.TrimSpec | app/lib/compiler.client.ts:106-108 | `trim` cuts only white space at both ends and leaves none there |
| Compiler.TrimIdempotent | app/lib/compiler.client.ts:106-108 | trimming twice is trimming once |
| Compiler.DeclarationName | app/lib/compiler.client.ts:93-94 | the declaration pattern's capture is a non-empty run of `[A-Za-z0-9_]` |
| Compiler.ExportNameSpec | app/lib/compiler.client.ts:97 | the fallback pattern's capture is a non-empty run of `[A-Za-z0-9_]` inside the match |
| Compiler.ExportedNameIsWord | app/lib/compiler.client.ts:99-116 | any reported name is non-empty and made of `[A-Za-z0-9_]` |
| Compiler.NoExportUnchanged | app/lib/compiler.client.ts:99-118 | no name is reported exactly when neither pattern matches anywhere; the input then comes back unchanged |
| Compiler.RewriteKeywordTrimmed | app/lib/compiler.client.ts:106-108 | the keyword rewrite always yields code with no white space at either end |
| Compiler.ExportRemovedIsTrimmed | app/lib/compiler.client.ts:103-116 | whenever a name is reported, the result has no white space at either end |
| Compiler.DeclarationRewritesFirstKeyword | app/lib/compiler.client.ts:103-108 | the keyword rewrite replaces the first `export default function` by `function` and trims; when the declaration form matches anywhere, that is the code returned |
| Compiler.FallbackRemovesLeftmost | app/lib/compiler.client.ts:109-115 | when the declaration form matches nowhere, the leftmost `export default Name;?` supplies the name and is deleted from the input, which is then trimmed |
| Compiler.DeclarationTakesPrecedence | app/lib/compiler.client.ts:99-108 | when the declaration form matches, its leftmost match names the export and the keyword rewrite gives the code |
| Compiler.RewriteNotAfterDeclaration | app/lib/compiler.client.ts:103-108 | the rewritten `export default function` is the first one, at or before the declaration match |
| Compiler.ExportDefaultAtStart | app/lib/compiler.client.ts:97 | `export default ` followed by a non-space matches the shared prefix |
| Compiler.KeywordReadAsName | app/lib/compiler.client.ts:97 | after `export default function` and a non-word character, the fallback captures `function` |
| Compiler.FallbackAtStart | app/lib/compiler.client.ts:109-115 | without a declaration match, a fallback match at index 0 names the export (the special case of `FallbackRemovesLeftmost` that `FallbackTakesKeywordAsName` uses) |
| Compiler.FallbackTakesKeywordAsName | app/lib/compiler.client.ts:109-115 | when the declaration form fails on `export default function ...`, the reported name is `function` |
| Compiler.ObjectName | app/lib/compiler.client.ts:31-46 | the evaluator object for an import source; stated by `ObjectNameIdentity` |
| Compiler.Properties | app/lib/compiler.client.ts:48-72 | the destructuring properties of the specifiers; stated by `PropertiesOfNamed`, `PropertiesAppend` and `ShorthandIff` |
| Compiler.TransformImport | app/lib/compiler.client.ts:25-81 | the `ImportDeclaration` visitor; stated by `TransformProgramSpec` and `DefaultImportDropped` |
| Compiler.ObjectNameIdentity | app/lib/compiler.client.ts:31-46 | a source is its own object name exactly when it is not one of the renamed sources |
| Compiler.PropertiesAppend | app/lib/compiler.client.ts:48-72 | properties are built specifier by specifier (distributes over concatenation) |
| Compiler.PropertiesOfNamed | app/lib/compiler.client.ts:48-72 | one property per named specifier, in order, from the imported name to the local name |
| Compiler.ShorthandIff | app/lib/compiler.client.ts:63-68 | a property is shorthand exactly when the imported and local names agree |
| Compiler.TransformProgramSpec | app/lib/compiler.client.ts:25-81 | each import with specifiers becomes the destructuring of its specifiers' properties from its source's object; imports without specifiers and other statements are unchanged |
| Compiler.DefaultImportDropped | app/lib/compiler.client.ts:48-81 | a default-only or namespace-only import becomes an empty destructuring |

## Left out

- The language-model calls (`streamText`, `applyUpdate`), the network and the oRPC plumbing are not modelled. The chunks are a parameter. The applier is a deterministic function parameter, while the real call is not deterministic.
- Logging (`console.error`, `console.warn`, `console.log`) is not modelled.
- The `then` callback of `window.grist.setOption` is not modelled. The write is modelled as recorded at once.
- Babel parsing, code generation and evaluation are not modelled. The import transformer works on a small statement datatype, and only on top-level imports.
- `describeGristStructure`, the React hooks, the query client and the UI components are not part of this model. Neither are `zod-xml` and the SQL endpoint.
- Grist values use unbounded integers for numbers; floating point is not modelled.
- Grist.ColumnFormatToRows: rows are maps, so the key order of a row object is not modelled. It requires a non-empty, well-formed column format, because an empty one throws in the source.
- Grist.AreSetsEqual: works on integer sequences, not IEEE numbers.
- Grist.SelectedRows.SetSelectedRows: the source compares against the `previouslySelectedRows` captured when the hook last rendered (app/lib/grist.client.ts:328-341), so two calls within one render both compare against the same old selection. The model stores the new rows at once, so a second call in the same render compares against the first call's rows. React's render timing is not modelled.
- Reducer.ArtifactStream.Step: the `await` of each update is sequential; interleaving with other requests is not modelled.
- A single composite lemma saying that the pending artifact is a prefix of its later values across a whole run is not stated. It is false in general (`SplitClosingTagShrinksContent`). The per-step form is `RegionGrowsWithinAppended`.
- The extractor test in app/orpc/ai.test.ts (lines 34-55) reads a key `grist_artifact_update`, which the extractor never sets.
- Compiler.FirstMatchSpec and the removeDefaultExport patterns: regular expressions are modelled only for the fixed patterns the source uses, not as a general engine.
