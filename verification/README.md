# Models of the plugin catalog tooling and the rule-pack tools

This project models the parts of the repository whose correctness is an argument rather than a
lookup, and proves what the code and its comments promise. `dafny verify dfyconfig.toml` checks it.

**Catalog publisher** (`xtask/src/catalog_publish.rs`; `CatalogPreflight`, `CatalogRuns`, `CatalogPhases`,
`CatalogPublish`, `CatalogHistory`, `CatalogConvergence`, `CatalogVerdicts`, `CatalogPlanning`). `Publisher`
is a class with the two stores, the local files and the preflight's accumulators as fields; its methods are
the phases. Every store operation may fail before or after its effect, a local write may leave a torn file and
an upload of several files may reach any of them, so the final states of one call are the states a crash can
leave. `PublishGeneration` is proved to be a `Ran` step, and `CatalogHistory` and `CatalogConvergence` reason
about sequences of such steps. A digest is a free constructor, so equal digests mean equal bytes; the
signature verifier, the tag check and the parser of a live redirect are parameters.

**SeaDex table encoder** (`rule_packs/seadex/encoding.go`, `matcher.go`, read by `policy.rego`; `Text`,
`TemplateCodec`, `Frames`, `TupleColumns`, `SeadexEncoding`, `SeadexEncoder`, `SeadexPolicy`,
`RouteWrapping`). The reader is the policy's own lookup: framed raw strings for direct records, and skeleton,
constant columns and newline-framed tuples for templates. Encoding and reading back gives exactly the pairs
that went in. Keys are sequences of characters.

**Finite regex expansion** (`rule_packs/trash/finite_groups.go`; `FiniteGroups`, `FiniteLanguage`,
`FiniteExistence`, `GroupAlternatives`). A regex has a language in which an anchor matches the empty word and
a literal matches itself. The expander is compared with that language, and expands whenever a count of ways
that is independent of it stays within the limit.

**xtask internals** (`xtask/src/main.rs`, `xtask/src/component_descriptor.rs`). `WasmLengths` and
`WasmDescriptor`: LEB128 numbers and custom sections (sections 5.2.2, 5.5.2 and 5.5.3 of the WebAssembly Core
Specification), against a declarative reading of a binary as a list of sections. `BoundedTasks`: the worker
pool as a machine whose steps are its locked sections, in every interleaving. `Utf8`: the encoding that names
are checked against and lines are measured by. `ReleaseTrigger`, `ReleaseListing`, `ResumableTags`,
`ResumeHistory` and `ResumeConvergence`: the resumable signed tags as a class over local and remote refs,
where any git command may fail before or after its effect. `Versions`, `CatalogMerge`, `CatalogMergeHistory`,
`CatalogMergeTwice`, `CatalogMergeLineage` and `RulePackMerge`: the catalog merges, over any total order of
version strings. The precedence of section 11 of Semantic Versioning 2.0.0 ignores build metadata; the code's
order compares it after the precedence, and so tells different versions apart. `Numbers`: reading a decimal
count back.

**Indexes and tokenizers** (`rule_packs/trash`, `rule_packs/refresh`). `DetectionIndex`, `GroupRows`,
`GroupTiers`, `GroupIndex`, `ScoreNormalizer` and `SourceFingerprint`. A lookup in the group index is what the
policy's function gives: undefined, one value, or a conflict when two rows give different ones.

Where the code does less than its documentation suggests, the model follows the code:

- A preflight can report no conflict although R2 holds other bytes (`UnsoundWithoutData`). It happens exactly
  when a companion is stranded: R2 has it without its data, and GitHub has other bytes of it
  (`ConflictFreeExact`). Every run keeps companions on R2 beside their data, so that no run strands one.
- The limit of 4096 words is not enforced on repetitions: an optional class of exactly 4096 characters
  expands to 4097 words (`RepetitionExceedsLimit`). `QuestExact` says exactly when an optional expression
  stays within it, `RepeatExact` and `UniformRepeatExact` how many words any repetition has, and
  `ExpandedBounded` is the bound that always holds.
- A class that contains surrogates expands to U+FFFD, which its language need not contain
  (`ClassSoundExact`).
- The descriptor's varint reader also takes values of more than 32 bits and cuts them (`LenientCuts`);
  `ReadersAgree` says where it and the section reader agree.
- Of two entries of one plugin a merge drops the first with its releases (`DuplicateIdsLoseReleases`), unless
  the later entry or an update has them too (`PreservationExact`).
- Rows that differ only in the kind of match are deduplicated in map order, and then the emitted rows are not
  determined by the files (`SnapshotDeterminedExactly`).
- A lookup in the group index is a conflict as soon as two rows that are not overwritten match, so the least
  of several candidates is never taken (`OutcomeExact`, with `PrefixAndExactConflict` as an input). A found
  value is the first match of a scan exactly when that row is not overwritten (`PicksFirstExactly`).
- A veto near either 64-bit limit wraps the scaling. The score never falls as the value rises exactly for the
  vetoes that scale without wrapping (`NeverFallsExactly`).
- A component that is named like a release trigger leaves two triggers, after which no run succeeds
  (`TwoTriggers`). `ResumeConvergence.ConvergesExactly` says from which states every history of interrupted runs
  and fresh clones converges to one trigger.

## Model

| member | source | states |
|---|---|---|
| CatalogPlanning.PlanGeneration | xtask/src/catalog_publish.rs:208-335 | succeeds exactly when catalog and redirect are of one generation, the last rung is named after it, every location can be planned and the redirect's files are there; and gives that plan |
| CatalogPlanning.PlanAssets | xtask/src/catalog_publish.rs:240-306 | succeeds exactly when every location can be planned: literal names, expected mirrors, files present, no name twice; then each location gives its data, bundle and raw sigstore bundle |
| CatalogPlanning.PlannedIsWellFormed | xtask/src/catalog_publish.rs:285-306 | a plan read from a prepared directory lists data before its companions, each name and address once; it is well formed exactly when no asset is named or addressed like a redirect file |
| CatalogPlanning.PlannableExact | xtask/src/catalog_publish.rs:195-306 | the locations can be planned exactly when each has a data file, a bundle and a raw bundle under literal names, in the directory, the first two mirrored on the generation release, and all names are distinct; these are the names of the plan |
| CatalogPlanning.CanPlanExact | xtask/src/catalog_publish.rs:208-335 | which prepared directories have a plan, in terms of the files they hold and the names their URLs end in |
| CatalogPlanning.PlanExact | xtask/src/catalog_publish.rs:268-320 | the addresses and signed assets of the three files of a location, and the addresses of the redirect |
| CatalogPreflight.PreflightOrderExact | xtask/src/catalog_publish.rs:395-407 | the preflight visits every asset exactly once, all data before all companions |
| CatalogPreflight.PassExact | xtask/src/catalog_publish.rs:383-459 | one pass over a store in closed form: which files it adopts, which digests and names it ends with, which assets it misses, and that it records no conflict exactly when every asset fits |
| CatalogPreflight.PassRewrites | xtask/src/catalog_publish.rs:429-437 | a pass rewrites only companions, only with verified bytes beside identical data |
| CatalogPreflight.R2PassSound | xtask/src/catalog_publish.rs:502-511 | with companions implying their data, the R2 pass ends without conflicts exactly on clean stores |
| CatalogPreflight.PreflightSound | xtask/src/catalog_publish.rs:502-538 | with companions implying their data, both passes end without conflicts if and only if the stores are clean; then every asset present anywhere equals the possibly adopted local file, digests are those of the files, and the missing lists are the absent assets |
| CatalogPreflight.ConflictFreeExact | xtask/src/catalog_publish.rs:502-538 | in every world, when both passes end without conflicts the files agree with GitHub, and they agree with R2 if and only if no companion is on R2 without its data while GitHub has other bytes of it |
| CatalogPreflight.UnsoundWithoutData | xtask/src/catalog_publish.rs:409-457 | such a world: no conflict is reported although R2 holds other bytes |
| CatalogPreflight.AbsentExact | xtask/src/catalog_publish.rs:448-449 | the missing list holds exactly the absent assets |
| CatalogPublish.Publisher.WriteFile | xtask/src/catalog_publish.rs:435-436 | a local write leaves the new bytes, or, interrupted, the old or torn ones of that file only |
| CatalogPublish.Publisher.UploadAssets | xtask/src/catalog_publish.rs:594-599 | a success has put the given files on the release; interrupted, any of them may be replaced or removed and nothing else changes |
| CatalogPublish.Publisher.ReadDigests | xtask/src/catalog_publish.rs:468-473 | the digests are those of the files |
| CatalogPublish.Publisher.ExamineAsset | xtask/src/catalog_publish.rs:408-457 | one asset against a store: adopt, conflict, identical or missing, or a torn companion when interrupted |
| CatalogPublish.Publisher.PreflightStore | xtask/src/catalog_publish.rs:383-459 | the loop is the pass of the specification, and an interrupted one leaves only adoptions |
| CatalogPublish.Publisher.Check | xtask/src/catalog_publish.rs:461-541 | nothing is written to a store before the redirect release, the tag and both preflights are checked |
| CatalogPublish.Publisher.UploadToR2 | xtask/src/catalog_publish.rs:548-558 | R2 gains the missing assets in plan order, up to where it stopped, and the report tells uploaded from skipped |
| CatalogPublish.Publisher.OpenGenerationRelease | xtask/src/catalog_publish.rs:564-590 | the release is created when it is not there, and loses nothing |
| CatalogPublish.Publisher.UploadMissing | xtask/src/catalog_publish.rs:591-603 | the generation release gains only planned bytes of missing assets |
| CatalogPublish.Publisher.VerifyPublicCopies | xtask/src/catalog_publish.rs:605-634 | succeeds exactly when every public copy has its asset's digest |
| CatalogPublish.Publisher.UploadHashed | xtask/src/catalog_publish.rs:548-634 | phases 1 to 3 only add planned hashed assets; after success both stores are complete |
| CatalogPublish.Publisher.MoveR2Redirect | xtask/src/catalog_publish.rs:636-680 | R2's redirect files change only under the merge base check and only once both files were read; reports whether they moved |
| CatalogPublish.Publisher.MoveGitHubRedirect | xtask/src/catalog_publish.rs:682-711 | a success replaces the stable release's three files; interrupted, any of the three may be replaced or removed and nothing else changes |
| CatalogPublish.Publisher.PublishGeneration | xtask/src/catalog_publish.rs:461-713 | whatever fails, the run is one that the history theorems speak about; when nothing fails it succeeds if and only if the generation can be published |
| CatalogVerdicts.PassSays | xtask/src/catalog_publish.rs:342-459 | a pass records the conflict of every asset that has one, a companion beside its data that does not verify or other bytes than the file's, notes every companion that it replaces, and records nothing else |
| CatalogVerdicts.ReportExact | xtask/src/catalog_publish.rs:543-683 | a success reports the assets that each store lacked as uploaded and the others as skipped, each once, that it created the release if there was none, and that it moved R2's redirect if and only if a redirect file there is another than before |
| CatalogVerdicts.AdoptionsExact | xtask/src/catalog_publish.rs:409-447 | a success reports a signature as adopted exactly when its file changed, and names the store whose bytes the file then has |
| CatalogVerdicts.ErrorsExact | xtask/src/catalog_publish.rs:461-711 | the error of a failing run whose operations all work: when it is each of the errors; the public copies mismatch exactly when a companion was stranded, and never does a run blame a store that works |
| CatalogVerdicts.ConflictsExact | xtask/src/catalog_publish.rs:500-541 | a run refused for conflicts names every conflict of both passes and no other |
| CatalogPhases.VerifiedExact | xtask/src/catalog_publish.rs:605-629 | all copies verified is the same as both stores being complete |
| CatalogPhases.PublicCopies | xtask/src/catalog_publish.rs:543-634 | after phases 1 and 2 the public copies verify exactly when the stores agreed with the files before |
| CatalogPhases.StagesAreARun | xtask/src/catalog_publish.rs:548-713 | checks, hashed uploads and redirect moves, stopped anywhere, compose to the effect of a run |
| CatalogRuns.UploadedExact | xtask/src/catalog_publish.rs:548-558 | uploading keeps every object that was there and adds the planned bytes of the others |
| CatalogRuns.UploadedKeeps | xtask/src/catalog_publish.rs:285-302 | every prefix of the upload keeps companions implying their data, because data is planned first |
| CatalogHistory.HashedObjectsAreImmutable | xtask/src/catalog_publish.rs:10-22 | over any serialised runs, of any plans, stopped anywhere, no hashed object on a store changes its bytes |
| CatalogHistory.R2RedirectIsBacked | xtask/src/catalog_publish.rs:548-680 | once any of the serialised runs so far moved R2's redirect, back to earlier bytes or not, what R2 serves was put there by a run whose hashed assets are all on both stores with the planned bytes |
| CatalogHistory.GitHubRedirectIsBacked | xtask/src/catalog_publish.rs:682-711 | the same for the redirect file of the stable GitHub release |
| CatalogHistory.StableReleaseMovesLast | xtask/src/catalog_publish.rs:682-705 | the stable release never changes before R2 serves the same redirect and both stores are complete |
| CatalogHistory.RefusedRunWritesNothing | xtask/src/catalog_publish.rs:475-541 | a refused tag, a missing redirect release, a missing file or any preflight conflict leaves both stores unchanged, local adoptions aside |
| CatalogHistory.TouchesOnlyItsOwn | xtask/src/catalog_publish.rs:10-22 | however a run ends, all that changed is its own: redirect files, assets that were not there, and companions among the local files |
| CatalogHistory.HashedObjectsHaveASource | xtask/src/catalog_publish.rs:548-558 | every hashed object on R2 after serialised runs was there before them, or one of them put it there with the bytes of its own file |
| CatalogHistory.MovesFromItsBase | xtask/src/catalog_publish.rs:636-680 | a run that changes a redirect file on either store, or succeeds, found on R2 the redirect whose last artifact is its merge base or its own master; without a merge base it found none or a readable one |
| CatalogHistory.RefusesExactly | xtask/src/catalog_publish.rs:636-671 | a run in whose way nothing else is, and whose operations all work, succeeds if and only if it finds its merge base or its own redirect; otherwise its error says what it found and no redirect changes |
| CatalogHistory.NoLostUpdate | xtask/src/catalog_publish.rs:654-661 | of two serialised runs with different masters prepared onto one base, with nothing moving the redirect back to it in between, at most one moves R2's redirect |
| CatalogConvergence.CanPublishWhenClean | xtask/src/catalog_publish.rs:475-541 | where companions on R2 have their data, a run can publish exactly in clean worlds with the files, the redirect release, the tag and the merge base |
| CatalogConvergence.CrashKeepsPublishable | xtask/src/catalog_publish.rs:18-22 | a run stopped anywhere, torn companions included, leaves its generation publishable |
| CatalogConvergence.RerunConverges | xtask/src/catalog_publish.rs:18-22 | after any attempts stopped anywhere, an attempt without failures succeeds with both redirects on this generation |
| CatalogConvergence.ConvergesExactly | xtask/src/catalog_publish.rs:18-22 | every history of attempts that ends in one without failures ends in a success if and only if the generation can be published in the first world and the merge base would also hold over its own redirect |
| CatalogConvergence.OwnRedirectConverges | xtask/src/catalog_publish.rs:254-258 | for a plan whose master is the last artifact of its own redirect, as plans are read, every history of attempts converges if and only if the generation can be published in the first world |
| CatalogConvergence.RerunIsIdempotent | xtask/src/catalog_publish.rs:548-683 | an attempt after a success uploads no hashed asset and does not move R2's redirect |
| Text.SplitJoin | rule_packs/seadex/encoding.go:303-320 | splitting at newlines undoes joining newline-free lines |
| Text.FramedExact | rule_packs/seadex/policy.rego:93-96 | a newline-framed line occurs in a text exactly when it is one of its inner lines |
| TemplateCodec.EncodedTemplateKey | rule_packs/seadex/encoding.go:201-219 | the loop over match positions cuts the escaped key into its skeleton and captures |
| TemplateCodec.RestoreEncodedTemplate | rule_packs/seadex/encoding.go:221-249 | the rune loop is the restoring function, with both of its errors |
| TemplateCodec.RoundTrip | rule_packs/seadex/encoding.go:201-249 | restoring an encoded key gives the key, for every key, markers included |
| TemplateCodec.TemplateInjective | rule_packs/seadex/encoding.go:201-219 | keys with the same skeleton and captures are equal |
| TemplateCodec.RestoredExact | rule_packs/seadex/encoding.go:221-249 | restoring fails exactly when the captures are fewer or more than the placeholders |
| TemplateCodec.CaptureCount | rule_packs/seadex/encoding.go:136-143 | an encoded key has as many placeholders as captures, so the restore error is unreachable |
| TemplateCodec.CapturesAreHex | rule_packs/seadex/encoding.go:19 | captures are nonempty and have neither comma nor newline |
| TemplateCodec.FindAllCuts | rule_packs/seadex/encoding.go:19 | the matches of the token expression are exactly its leftmost ones: each eight hex digits, or a maximal digit run that eight hex digits do not start, in order and apart, and between them no position starts a match |
| TemplateCodec.CutsOnce | rule_packs/seadex/encoding.go:19 | a text can be cut in that way in one way only |
| TemplateCodec.TemplateExact | rule_packs/seadex/encoding.go:201-219 | the captures of a key are these matches in its escaped form, and its skeleton is what is around them with a placeholder for each |
| Frames.BlobKeyIsOnePass | rule_packs/seadex/encoding.go:322-327 | the four replacements one after the other are one pass over the characters |
| Frames.OnePassInjective | rule_packs/seadex/encoding.go:322-327 | different keys stay different |
| Frames.BlobKeyExact | rule_packs/seadex/encoding.go:322-327 | a blob key has no newline, carriage return or backtick |
| Frames.SharedTupleChunks | rule_packs/seadex/encoding.go:303-320 | each tuple lands in one chunk, in order; a chunk exceeds the maximum only when it holds one tuple, and is closed only when the next would not fit |
| Frames.ChunksMembership | rule_packs/seadex/encoding.go:303-320 | a framed line is found in some chunk exactly when it is one of the tuples |
| Frames.BlobMembership | rule_packs/seadex/encoding.go:329-358 | a framed nonempty line is found in a blob exactly when it is one of its entries |
| TupleColumns.ConstantColumns | rule_packs/seadex/encoding.go:258-278 | finds exactly the columns that every tuple agrees on, and fails exactly when the widths differ |
| TupleColumns.EncodedGroupData | rule_packs/seadex/encoding.go:258-301 | when each error occurs, and what the constants and tuples hold otherwise |
| TupleColumns.NoCollision | rule_packs/seadex/encoding.go:285-295 | different token tuples that agree on the constant columns differ on a variable one, so the collision error is unreachable |
| TupleColumns.RouteAcceptsExact | rule_packs/seadex/policy.rego:117-135 | a route accepts exactly the tuples that it was made from |
| SeadexEncoder.EncodeTable | rule_packs/seadex/encoding.go:124-179 | succeeds exactly when no key has one code in two maps, its only error is the duplicate tuple, and the table represents the maps' entries |
| SeadexEncoder.GroupAll | rule_packs/seadex/encoding.go:124-158 | groups every key by code and skeleton, once, or finds the clash |
| SeadexEncoding.LookupIsExact | rule_packs/seadex/policy.rego:66-115 | the policy's lookup of a key and code in a table finds exactly the entries it represents |
| SeadexPolicy.Collapse | rule_packs/seadex/matcher.go:371-415 | a signature is accepted with its score when all its candidates agree on one identity, and collides otherwise |
| SeadexPolicy.AgreedExact | rule_packs/seadex/matcher.go:371-389 | a key has a score exactly when no two of its candidates differ in identity, and in the strict table that is then the score of each of them |
| SeadexPolicy.EncodeStrict | rule_packs/seadex/encoding.go:55-60 | collapsing candidates and encoding what is accepted and what blocks never fails, and the table represents both |
| SeadexPolicy.RenderRawBuckets | rule_packs/seadex/encoding.go:329-358 | succeeds exactly when no line is too long, and then each blob holds its bucket's entries |
| SeadexPolicy.PolicyIsExact | rule_packs/seadex/policy.rego:50-115 | encoding, rendering and looking up gives exactly the codes of the input maps, for every key |
| SeadexPolicy.StrictTableIsExact | rule_packs/seadex/policy.rego:50-58 | the strict table recommends the accepted score of accepted keys, blocks collided ones and knows no other |
| RouteWrapping.WrapRouteJson | rule_packs/seadex/encoding.go:392-426 | fails exactly when the text ends inside a string, and otherwise breaks lines, whose columns count bytes, as the specification says |
| RouteWrapping.WrappingKeepsTokens | rule_packs/seadex/encoding.go:392-426 | wrapping only inserts insignificant white space (section 2 of RFC 8259): the tokens, strings included, are the same |
| RouteWrapping.WrapExact | rule_packs/seadex/encoding.go:392-426 | the text is refused exactly when it is not made of whole strings and other characters; every line but the last ends at the first structural character outside strings with at least the target's bytes in the line, and the last has no such character |
| Utf8.ByteLenExact | rule_packs/seadex/encoding.go:303-320 | the lengths that lines and chunks are measured by are those of the UTF-8 encoding (section 3 of RFC 3629) |
| FiniteGroups.ConcatWords | rule_packs/trash/finite_groups.go:124-139 | gives every concatenation, or gives up exactly when the product of the sizes exceeds the limit |
| FiniteGroups.ExpandClass | rule_packs/trash/finite_groups.go:41-51 | gives the words of the ranges, or gives up exactly when there are more than the limit |
| FiniteGroups.ExpandFinite | rule_packs/trash/finite_groups.go:32-123 | the recursive expander returns the specified set and gives up exactly when the specification does |
| FiniteGroups.RepeatWords | rule_packs/trash/finite_groups.go:101-121 | the loop unites min to max copies |
| FiniteLanguage.ExpandedWithin | rule_packs/trash/finite_groups.go:32-123 | every word of the expansion is in the regex's language, and it is the whole language when no alternation drops a branch |
| FiniteLanguage.ClassSoundExact | rule_packs/trash/finite_groups.go:41-51 | a class is expanded soundly exactly when it has no surrogate or also has U+FFFD |
| FiniteLanguage.LeafSoundExact | rule_packs/trash/finite_groups.go:36-51 | a literal or class is expanded soundly exactly when it has no surrogate or, a class, also has U+FFFD |
| FiniteLanguage.AlternationWholeExactly | rule_packs/trash/finite_groups.go:69-84 | an alternation whose finite branches are whole gives its whole language exactly when the branches it drops have no other word |
| FiniteLanguage.ExpandedBounded | rule_packs/trash/finite_groups.go:32-139 | class, concatenation and alternation results stay within 4096 words, repetitions within 1 + 8 * 4096 |
| FiniteLanguage.QuestExact | rule_packs/trash/finite_groups.go:83-121 | an optional expression is expanded exactly when it has 1 to 4096 words, to those and the empty one, and stays within 4096 exactly when it has fewer or the empty word is among them |
| FiniteLanguage.RepeatExact | rule_packs/trash/finite_groups.go:101-121 | a repetition has at most as many words as its numbers of copies have together, and as many exactly when no word comes of two numbers of copies |
| FiniteLanguage.UniformRepeatExact | rule_packs/trash/finite_groups.go:101-121 | c words of one positive length, as a class has, are repeated exactly when max is at most 8 and c to the max at most 4096, and then give the sum of the powers of c from min to max |
| FiniteLanguage.RepetitionExceedsLimit | rule_packs/trash/finite_groups.go:101-121 | an optional class of 4096 characters expands to 4097 words |
| FiniteExistence.ExpandsWithinWays | rule_packs/trash/finite_groups.go:32-123 | a regex without unbounded parts or repetitions over eight, whose number of ways is within 4096, expands, to at most that many words |
| FiniteExistence.BoundedIsWhole | rule_packs/trash/finite_groups.go:32-123 | and, with sound leaves, to its whole language |
| FiniteExistence.CapturesAreTransparent | rule_packs/trash/finite_groups.go:52-53 | erasing the captures of a regex changes neither whether it expands nor to what |
| FiniteExistence.AlternationExpands | rule_packs/trash/finite_groups.go:69-87 | an alternation expands to the words of its finite branches, exactly when there is one and they are at most 4096 |
| GroupAlternatives.SplitGroupAlternatives | rule_packs/trash/finite_groups.go:191-216 | cuts the input at its top-level bars |
| GroupAlternatives.SplitExact | rule_packs/trash/finite_groups.go:191-216 | the pieces with bars between them are the input, and no piece has a top-level bar |
| GroupAlternatives.TopBarExact | rule_packs/trash/finite_groups.go:191-216 | a bar is at the top level exactly when no backslash escapes it and as many parentheses are closed as are opened before it, the escaped ones aside |
| WasmLengths.ReadWasmU32Leb | xtask/src/main.rs:5158-5174 | the loop is the strict reader, on every input and offset |
| WasmLengths.StrictExact | xtask/src/main.rs:5158-5174 | the strict reader accepts exactly the encodings of 32-bit values in at most five bytes |
| WasmLengths.StrictErrors | xtask/src/main.rs:5158-5174 | when each error occurs; the last one is unreachable |
| WasmLengths.WriteWasmU32Leb | xtask/src/main.rs:5176-5188 | appends the encoding of the value |
| WasmLengths.LebShortest | xtask/src/main.rs:5176-5188 | no other encoding of the value is shorter |
| WasmLengths.StrictReadsLeb | xtask/src/main.rs:5158-5188 | reading back what was written, wherever it stands, gives the value and its end |
| WasmLengths.RewritingNeverGrows | xtask/src/main.rs:5158-5188 | writing a value that was read takes no more bytes than it had, and reads back |
| WasmLengths.ReadVarintU32 | xtask/src/component_descriptor.rs:306-315 | the loop is the lenient reader |
| WasmLengths.LenientExact | xtask/src/component_descriptor.rs:306-315 | the lenient reader takes any terminated run of at most five bytes, and keeps 32 bits of its value |
| WasmLengths.ReadersAgree | xtask/src/component_descriptor.rs:306-315 | the strict reader accepts exactly where the lenient one gives the uncut value, and then both agree |
| WasmLengths.LenientCuts | xtask/src/component_descriptor.rs:306-315 | an encoding of 2^32 that one reader refuses and the other reads as 0 |
| WasmDescriptor.DescriptorCustomSection | xtask/src/main.rs:5190-5223 | the loop is the scan of the specification, errors included |
| WasmDescriptor.DescribedExact | xtask/src/main.rs:5190-5223 | the scan succeeds exactly on a header followed by well-formed sections with at most one reserved custom section, and returns that one |
| WasmDescriptor.RefusedExactly | xtask/src/main.rs:5190-5223 | a binary is no WebAssembly exactly without the header of a module or component, and has several descriptors exactly when the sound sections that it begins with hold two |
| Utf8.IsUtf8Exact | xtask/src/main.rs:5206-5214 | a name is accepted exactly when it is the UTF-8 encoding of some text (section 3 of RFC 3629) |
| Utf8.ReservedExact | xtask/src/main.rs:5206-5214 | a name is reserved exactly when its text begins with the prefix |
| WasmDescriptor.AppendPluginDescriptorCustomSection | xtask/src/main.rs:5225-5253 | result or error of appending; the 32-bit conversions never fail |
| WasmDescriptor.AppendsExactly | xtask/src/main.rs:5225-5253 | appending succeeds exactly within the size limit on a well-formed binary without a reserved section |
| WasmDescriptor.EmbedThenParse | xtask/src/main.rs:5190-5253 | the input is a prefix of the result, its sections stay before the new one, it parses back to the v1 name and the payload, and a second append always fails |
| BoundedTasks.StepKeeps | xtask/src/main.rs:1407-1447 | every locked step and every finished item keeps the pool's invariant |
| BoundedTasks.EveryInterleaving | xtask/src/main.rs:1397-1464 | in every interleaving at most eight items are in flight, none is started twice or out of order, and after an error is recorded at most one item more is started by each other worker |
| BoundedTasks.ReturnsExactly | xtask/src/main.rs:1449-1464 | the call returns Ok exactly when every item ran and succeeded, and otherwise an error that some worker returned |
| BoundedTasks.FirstErrorStays | xtask/src/main.rs:1434-1441 | once an error is recorded it stays the recorded one |
| BoundedTasks.ReturnsFirstRecorded | xtask/src/main.rs:1434-1464 | the call returns the error of the first worker that records one, whatever happens after |
| BoundedTasks.FewStartLate | xtask/src/main.rs:1411-1441 | however a run goes on once an error is recorded, at most seven more items are started |
| BoundedTasks.WorkersStart | xtask/src/main.rs:1401-1410 | eight workers, or one for each item, can be at work at once |
| BoundedTasks.EveryRunEnds | xtask/src/main.rs:1413-1447 | every run has a bounded number of steps, and can go on until every worker is done |
| BoundedTasks.RunBounded | xtask/src/main.rs:1397-1464 | under any scheduler and any worker function the call ends, in a run of the machine |
| ReleaseTrigger.ReleaseTriggerMessage | xtask/src/main.rs:3372-3390 | builds the message from its lines |
| ReleaseTrigger.ReleaseTriggerComponents | xtask/src/main.rs:3395-3427 | the loop over the body's lines is the reader of the specification, with its three errors |
| ReleaseTrigger.MessageRoundTrip | xtask/src/main.rs:3372-3427 | reading a trigger's message gives exactly the components it was written for, in order |
| ReleaseListing.FieldsExact | xtask/src/main.rs:3406 | the fields of a line are its words, whatever white space is around them |
| ReleaseListing.PluginTagExact | xtask/src/main.rs:3153-3163 | a component tag is the prefix, an id without slashes and a version after the last /v |
| ReleaseListing.BodyExact | xtask/src/main.rs:3399-3402 | the body of a message is what follows its first blank line |
| ReleaseListing.LinesExact | xtask/src/main.rs:3405 | a body has the lines that newlines part, without an empty one at the end |
| ReleaseListing.SubjectExact | xtask/src/main.rs:3372-3381 | the subject names all tags of the release, in order |
| ReleaseListing.ReadExact | xtask/src/main.rs:3395-3431 | the outcome of reading any message: the error of the first bad line, nothing without a marker, and else the components of the lines that list one, in order, if they are as many as the last marker says |
| Numbers.ParseDecimal | xtask/src/main.rs:3409-3412 | the count reads back as written |
| Numbers.ParseExact | xtask/src/main.rs:3408-3412 | a count is read from exactly the decimal numbers below two to the 64th, with zeros or a plus sign before them |
| ResumableTags.Clone.CreateAndVerifySignedTag | xtask/src/main.rs:3134-3151 | creates one tag object at HEAD, or fails before or after creating it |
| ResumableTags.Clone.EnsureResumableSignedTagListing | xtask/src/main.rs:3830-3874 | creates a tag that is nowhere, verifies one that is there, refuses one that is only remote, elsewhere, unverified or different |
| ResumableTags.Clone.ExistingReleaseTriggerForCommit | xtask/src/main.rs:3876-3899 | the one usable trigger at the commit, none, or an error exactly when one is unusable or there are several |
| ResumableTags.Clone.ResumeSignedTags | xtask/src/main.rs:3758-3802 | one run of the protocol, with every place where it can stop |
| ResumeHistory.NothingReplaced | xtask/src/main.rs:3755-3757 | however a run ends, every tag object on either side stays as it was and at most two tags are gained |
| ResumeHistory.MismatchCreatesNothing | xtask/src/main.rs:3764-3782 | from a state with several triggers at the commit, an unusable one or one that lists other components every run fails, however it ends, and creates no tag on either side |
| ResumeHistory.RefusesExactly | xtask/src/main.rs:3766-3780 | the one usable trigger is refused exactly when components are given and it lists something else |
| ResumeHistory.UsableExact | xtask/src/main.rs:3876-3899 | a trigger is usable exactly when it verifies and its message lists components, and which error it gives otherwise |
| ResumeHistory.ComponentListsNothing | xtask/src/main.rs:3841-3850 | the tag of a component never counts as a usable trigger: its message lists nothing |
| ResumeHistory.TriggerNameIsOneSegment | xtask/src/main.rs:3811-3823 | what follows the prefix in the name of a new trigger is one nonempty path segment, as the release workflow needs it |
| ResumeHistory.TriggerNameExact | xtask/src/main.rs:3811-3823 | two requests share a trigger exactly when the first twelve characters of their commits agree and their component tags are equal up to slashes against underscores |
| ResumeHistory.SuccessReleases | xtask/src/main.rs:3758-3802 | a success leaves the component published, the same verified object on both sides, and it leaves exactly one trigger, that lists the components, if and only if it did not make a trigger of the component |
| ResumeConvergence.SucceedsExactly | xtask/src/main.rs:3758-3874 | from every state a run without failures succeeds if and only if the component's tag fits, and the one trigger at the commit, or else the name of a new one, fits and lists the components |
| ResumeConvergence.ResumeConverges | xtask/src/main.rs:3710-3717 | from a steady state, after any number of interrupted runs and fresh clones, a run without failures succeeds with exactly one trigger, replaces no tag it finds, and running it again changes nothing |
| ResumeConvergence.ConvergesExactly | xtask/src/main.rs:3758-3802 | from a fetched state every such history converges if and only if a run could succeed there and from a fresh clone, and a component named like a trigger is already on the remote |
| ResumeConvergence.UntouchedExactly | xtask/src/main.rs:3758-3802 | a state without anything of the release is steady if and only if the component is not named like a trigger |
| ResumeConvergence.TwoTriggers | xtask/src/main.rs:3783-3802 | a component that is named like one makes two triggers in its first run, a state that no later run accepts |
| Versions.NewestFirstSorts | xtask/src/main.rs:6537-6547 | sorting permutes the releases into descending version order |
| Versions.ListsOnce | xtask/src/main.rs:6537-6547 | a map of releases has one newest-first listing |
| CatalogMerge.LatestExact | xtask/src/main.rs:6529-6535 | the latest version is an entry's version that no other exceeds |
| CatalogMerge.MergeReleases | xtask/src/main.rs:6503-6524 | the merged releases are the newest-first listing of old and new by version, the new replacing the old |
| CatalogMerge.MergeCatalogV3PluginEntries | xtask/src/main.rs:6493-6527 | the loops compute the merge of the specification |
| CatalogMergeHistory.MissingReleases | xtask/src/main.rs:6579-6624 | the check reports exactly the published releases that may not be removed and that the candidate lacks |
| CatalogMergeHistory.MergeHas | xtask/src/main.rs:6493-6527 | a merge has exactly the releases that were there and those of the updates |
| CatalogMergeHistory.PreservationExact | xtask/src/main.rs:6579-6624 | the check passes a merge exactly when each release is in the last entry of its plugin, in an update or may be removed |
| CatalogMergeHistory.MergeKeepsHistory | xtask/src/main.rs:6493-6527 | with unique plugin ids every published release survives any merge |
| CatalogMergeHistory.DuplicateIdsLoseReleases | xtask/src/main.rs:6497-6500 | of two entries of one plugin the first is lost |
| CatalogMergeTwice.MergeTwice | xtask/src/main.rs:6493-6527 | when no update lists a version twice, merging the same updates again changes nothing |
| CatalogMergeTwice.MergedPluginExact | xtask/src/main.rs:6493-6547 | an updated plugin lists, newest first and each version once, the old releases replaced and joined by the updates'; others are untouched |
| CatalogMergeLineage.MergedPluginIsLastNewest | xtask/src/main.rs:6493-6547 | everything but the releases of a merged plugin comes from the last of its entries with the newest version, and of each version it lists the release that came last |
| RulePackMerge.MergeCatalogV3RulePackEntries | xtask/src/main.rs:7032-7073 | the loops compute the merge of the specification or its error |
| RulePackMerge.MergeKeepsReleases | xtask/src/main.rs:7032-7073 | a merge fails, or keeps every published release of every pack unchanged |
| RulePackMerge.FailsExactly | xtask/src/main.rs:7045-7058 | with no version listed twice in a pack, a merge fails exactly when two releases of one version, published or brought, differ in more than their mirrors |
| RulePackMerge.MergedPackExact | xtask/src/main.rs:7032-7073 | after a successful merge a pack that was there and that an update concerns has the labels of its last update and lists its releases newest first; when no pack lists a version twice, it lists of each version the release that came first |
| SourceFingerprint.SourceFingerprintText | rule_packs/refresh/source_fingerprint.go:12-62 | the scan ends with the tokens, or at a quote that is neither in a comment nor in a string and that nothing closes |
| SourceFingerprint.TokensExact | rule_packs/refresh/source_fingerprint.go:12-62 | scanning fails exactly when the source ends inside a string; otherwise the tokens concatenate to the source without white space and comments outside strings |
| SourceFingerprint.GapsDoNotMatter | rule_packs/refresh/source_fingerprint.go:9-27 | replacing a nonempty run of white space and comments by another never changes the tokens |
| SourceFingerprint.TokensRoundTrip | rule_packs/refresh/source_fingerprint.go:12-62 | the tokens joined by spaces have the same tokens |
| SourceFingerprint.WordIsOneToken | rule_packs/refresh/source_fingerprint.go:49-57 | a run of letters, digits and underscores with neither before nor after it is one token |
| SourceFingerprint.SymbolIsOneToken | rule_packs/refresh/source_fingerprint.go:27-58 | every other character outside strings and comments is a token of its own |
| SourceFingerprint.StringIsOneToken | rule_packs/refresh/source_fingerprint.go:29-48 | a string is one token, from its quote to the first that no backslash escapes; only between double quotes does a backslash escape |
| DetectionIndex.IndexedDetectionTable | rule_packs/trash/detection.go:134-163 | fails exactly on an empty pattern; otherwise each rule stands once, in table order, in the bucket of its anchor |
| DetectionIndex.AnchorExact | rule_packs/trash/detection.go:134-163 | the anchor of a sequence is its first token, that of required tokens the one that no other precedes |
| DetectionIndex.PrecedesExact | rule_packs/trash/detection.go:134-163 | one string precedes another exactly where at the first difference it ends or has the lesser character |
| DetectionIndex.MatchesExact | rule_packs/trash/detection.go:231-245 | a sequence matches exactly when its tokens stand in a row in the release, required tokens exactly when all are there |
| DetectionIndex.IndexAgreesWithScan | rule_packs/trash/detection.go:231-242 | for every token array the lookups find exactly the rules that a scan of the table matches |
| DetectionIndex.DetectedTitleExact | rule_packs/trash/detection.go:424-434 | for every table: no title exactly when no rule blocks, and a conflict exactly when two rules that block with the least order have different codes |
| DetectionIndex.TitleIsFirstExactly | rule_packs/trash/detection.go:424-434 | for every table: the title is the first blocking rule's exactly when every rule that blocks with the least order has its code |
| DetectionIndex.TitleNeedsApplicableRule | rule_packs/trash/detection.go:424-434 | a title comes of a rule of the facet whose category is any, or anime in the anime facet; with such a rule that matches there is a title or a conflict |
| DetectionIndex.DetectorRowsForSnapshot | rule_packs/trash/distill_pipeline.go:411-429 | the distiller gives each row its place as its order |
| DetectionIndex.BlockedTitleIsFirst | rule_packs/trash/detection.go:424-434 | in a distilled table the first rule that blocks gives the title, there is none when no rule blocks, and never a conflict |
| DetectionIndex.FoldsAgree | rule_packs/trash/detection.go:218-220 | the policy's twenty-six replacements fold exactly as the generator does |
| DetectionIndex.FoldExact | rule_packs/trash/detection.go:218-220 | folding turns each capital of ASCII into its small letter and keeps everything else |
| DetectionIndex.IndexedLocaleGroups | rule_packs/trash/detection.go:170-186 | the exact and prefix indexes hold every rule and no other |
| DetectionIndex.ExactRuleExact | rule_packs/trash/detection.go:170-186 | under a key the exact index holds the codes and contexts of the exact rules whose facet and folded matcher make the key |
| DetectionIndex.LocaleKeyExact | rule_packs/trash/detection.go:172-180 | two exact rules share a key exactly when facet and folded matcher agree |
| GroupTiers.CollapseRows | rule_packs/trash/distill_groups.go:67-77 | the loop is the collapse of the specification |
| GroupTiers.CollapsedExact | rule_packs/trash/distill_groups.go:67-77 | each key is kept once, with a row of its best tier |
| GroupTiers.BestTier | rule_packs/trash/distill_groups.go:105-116 | with rows of known tiers a key is kept with a row of tier banned if it has one, else gold, else silver, else bronze |
| GroupTiers.SortKeyOrder | rule_packs/trash/distill_groups.go:78-85 | rows are in the order of their facet, then context, tier and matcher |
| GroupRows.GroupStem | rule_packs/trash/distill_groups.go:133-156 | the loop over the prefixes finds what a stem says of its groups, and its tier is one of the four |
| GroupRows.StemExact | rule_packs/trash/distill_groups.go:133-156 | which stems give which tier and context, and that every other stem gives none |
| GroupRows.FacetExact | rule_packs/trash/distill_groups.go:22-28 | the facet of a file is anime by its stem, else movie by its path, else series |
| GroupRows.BuildRows | rule_packs/trash/distill_groups.go:14-66 | the rows are exactly those that a file or a built-in seed gives |
| GroupRows.GivenExact | rule_packs/trash/distill_groups.go:14-66 | a row is a matcher of a file with the tier, context and facet of the file, or a seed, which stands in all three facets when it has no context |
| GroupRows.FileOrderIsIgnored | rule_packs/trash/distill_groups.go:14-77 | for any files, every order and repetition of them collapses to the same rows, because all their tiers are known |
| GroupRows.SnapshotDeterminedExactly | rule_packs/trash/distill_groups.go:67-95 | for any files, the emitted rows and indexes are the same for every order of the files and of the map if and only if no two collapsed rows differ only in match kind |
| GroupTiers.CollapseIgnoresOrder | rule_packs/trash/distill_groups.go:67-77 | when no key has two best rows, the collapse does not depend on row order or repetition |
| GroupTiers.CollapseOrderExact | rule_packs/trash/distill_groups.go:67-77 | every permutation of the rows collapses alike if and only if no key has two best rows |
| GroupTiers.JoinedKeysExact | rule_packs/trash/distill_groups.go:71-89 | the keys joined by NUL tell rows apart as their fields do, whatever the matchers hold |
| GroupTiers.DistillGroupRows | rule_packs/trash/distill_groups.go:67-95 | collapse, sort and dedupe emit one of the specified outputs |
| GroupTiers.EmissionIsDetermined | rule_packs/trash/distill_groups.go:67-95 | with one best row a key and no rows that differ only in match kind, rows and indexes are the same for every row and map order |
| GroupTiers.DeterminedExactly | rule_packs/trash/distill_groups.go:86-95 | the output is determined if and only if no two collapsed rows differ only in match kind |
| GroupIndex.RenderGroups | rule_packs/trash/render.go:85-122 | refuses exactly empty or misnumbered rows, naming the first, and otherwise builds the index |
| GroupIndex.MatchesExact | rule_packs/trash/render.go:85-153 | a row matches a group of its facet and context whose name is the matcher, or, for a prefix row, starts with it, but for the case of ASCII letters |
| GroupIndex.CandidatesExact | rule_packs/trash/render.go:151-152 | the candidates of a lookup are the matching rows that no later exact row overwrites |
| GroupIndex.FoundExact | rule_packs/trash/render.go:151-153 | a lookup gives a row's value exactly when that row matches, is not overwritten, and is the only such row |
| GroupIndex.OutcomeExact | rule_packs/trash/render.go:151-153 | a lookup is undefined exactly when no row stands, and a conflict exactly when two do |
| GroupIndex.PicksFirstExactly | rule_packs/trash/render.go:151-153 | a lookup that gives a value gives the first row that a scan finds exactly when no later exact row overwrites it |
| GroupIndex.IndexAgreesWithScan | rule_packs/trash/render.go:93-153 | without case collisions a lookup gives the first matching row exactly when no other matches, and is a conflict otherwise |
| GroupIndex.PrefixAndExactConflict | rule_packs/trash/render.go:151-153 | a prefix row and an exact row that both match, without a case collision: a conflict |
| ScoreNormalizer.NormalizeExact | rule_packs/trash/render_locale.go:58-85 | for a scalable veto no 64-bit step wraps |
| ScoreNormalizer.NormalizeShape | rule_packs/trash/render_locale.go:58-80 | for a scalable veto the result is nondecreasing, the identity on [-100, 100], within 1000 of zero above -10000 and -10000 exactly at or below it |
| ScoreNormalizer.NormalizeLine | rule_packs/trash/render_locale.go:58-80 | for a scalable veto the result is 1000 from the veto on, on the line from 100 to 1000 rounded down before it, and for negative values above the floor what it is for the positive ones, negated |
| ScoreNormalizer.NeverFallsExactly | rule_packs/trash/render_locale.go:58-80 | for every 64-bit veto, the score never falls as the value rises if and only if the veto is scalable |
| ScoreNormalizer.Vetoes | rule_packs/trash/render_locale.go:24-34 | the loops compute the veto of every set |
| ScoreNormalizer.VetoIsLeast | rule_packs/trash/render_locale.go:24-34 | a set's veto is the least magnitude its envelopes list, where an empty first envelope counts as 10000 |
| ScoreNormalizer.VetoOrderExact | rule_packs/trash/render_locale.go:24-34 | the veto does not depend on the order of the envelopes if and only if none is empty, all are, or a magnitude of at most 10000 is listed |
| ScoreNormalizer.DistilledVeto | rule_packs/trash/distill_pipeline.go:363-402 | with one envelope a set and vetoes of at most -10000, as they are distilled, the veto is the least magnitude listed, 10000 without one, and the least 64-bit number when that is listed |
| ScoreNormalizer.NormalizedFactScore | rule_packs/trash/render_locale.go:15-57 | returns the weakest value of the first set and application that offer one, normalized against the veto of the first selected set |
| ScoreNormalizer.AppsExact | rule_packs/trash/render_locale.go:36-39 | a code that mentions anime is looked up in sonarr first, every other in radarr first |
| ScoreNormalizer.TriedExact | rule_packs/trash/render_locale.go:35-41 | sets are tried in order, each with both applications in order |
| ScoreNormalizer.ChosenExact | rule_packs/trash/render_locale.go:40-50 | the value of a set and application is an offered one, none is offered nearer to zero, and of two as near it is the negative one |
| ScoreNormalizer.ScoreExact | rule_packs/trash/render_locale.go:35-56 | there is a score exactly when a row has one for the code in a selected set or the default, and it is the normalized weakest one of the first set and application that have any |
| ScoreNormalizer.OfSetExact | rule_packs/trash/render_locale.go:24-29 | the vetoes of a set are those of its envelopes, in order |
| ScoreNormalizer.ScoreIgnoresOrder | rule_packs/trash/render_locale.go:38-55 | the result does not depend on the order of the rows |

## Left out

- CatalogPublish.Publisher.MoveR2Redirect: the redirect compare is a read followed by two puts, so it is a compare-and-set only when no other writer comes in between; runs are serialised and other writers are not modelled.
- CatalogPublish.Publisher.VerifyPublicCopies: fetching a public copy gives the store's bytes; caches and delays between a store and its public address are not modelled.
- CatalogPlanning.PlanGeneration: plans from a decoded redirect and catalog; parsing them is not modelled, and that asset addresses differ from the redirect's is a hypothesis of a well-formed plan.
- SeadexEncoder.EncodeTable: the sorted order in which tuples and keys are emitted is not modelled, tables are compared as maps; the JSON text of the routes before it is wrapped, the decimal bucket names and the statistics are left out.
- SeadexPolicy.StrictTableIsExact: signatures are given; how a title is normalised into one is not modelled.
- FiniteLanguage.ExpandedWithin: literals match themselves, so case-folding literals are not modelled; with a surrogate in a literal, or in a class without U+FFFD, the words need not be in the language (see LeafSoundExact). Parsing a pattern, and dropping the empty word and sorting afterwards, are left out.
- WasmLengths.ReadWasmU32Leb: joining disjoint bits is written as addition.
- BoundedTasks.EveryInterleaving: workers do not panic, and thread creation is not a step.
- ResumeConvergence.ResumeConverges: HEAD and the signing key stay as they are through a history, nobody else writes tags in between, and the clone it starts in has fetched the remote's tags.
- ReleaseTrigger.MessageRoundTrip: git stores a tag message as given, and a tag body is what follows the first blank line; tags and commits have no white space, as git's names have none.
- CatalogMerge.MergeCatalogV3PluginEntries: versions all parse and are compared by a total order; the merged entries are a map by id, and listing them in id order is left out.
- RulePackMerge.MergeCatalogV3RulePackEntries: the final sort by id and the panic on an unparsable version are left out.
- DetectionIndex.IndexedDetectionTable: service aliases and the copying of record fields are left out.
- GroupTiers.EmissionIsDetermined: facet, context and tier have no NUL; SnapshotDeterminedExactly proves it of every row built.
- GroupRows.BuildRows: a file comes with the matchers distilled from its records.
- ScoreNormalizer.VetoOrderExact: vetoes of zero and the one number without a magnitude are excluded; the distiller lists only scores of at most -10000.
- SourceFingerprint.SourceFingerprintText: characters are given and the letter, digit and space classes are parameters with the disjointness that Unicode gives them; encoding the tokens as JSON is left out.
- Process, network and file plumbing, command-line parsing, TOML and JSON decoding, the plugin host shims and build scripts, and the heuristic title and locale distillers.
