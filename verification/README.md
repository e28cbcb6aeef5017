# Agent Host Protocol toolchain: model and proofs

The repository compiles a protocol written in TypeScript into JSON Schemas and clients for
Go, Rust, Swift, Kotlin and C#, and releases their changelogs.  These Dafny modules model the
part of that toolchain that decides something and prove what it promises.

- **Types to schemas** (`TypeText`, `TypeCompiler`, `TypeTermination`, `BracketText`,
  `PrintedType`, `TypeReading`, `TypeRoundTrip`, `UnionReading`, `UndefinedTests`,
  `UndefinedAgreement`, `Properties`, `TypeReferences`, `SchemaMeaning`, `Decorated`): the text
  of a TypeScript type is read with regular expressions and a bracket-aware splitter.  Printing
  a type tree and compiling the text gives the schema of the tree, which accepts exactly the
  JSON values of the type; where the code misreads a text, the exact condition is proved.
- **Closing `$defs`** (`Schema`, `RefClosure`): the fixpoint that backfills definitions.
- **Negotiation** (`Decimal`, `Version`, `Negotiation`): five loops, one specification.
- **Changelogs** (`Markdown`, `Fragments`, `ChangeSections`, `Changelog`, `Reparse`, `Editing`,
  `Ledger`, `ReleaseReading`, `ReleaseRun`, `Releases`, `Restart`, `Idempotence`, `Stopped`,
  `History`, `ReleaseOrder`): a Markdown section editor, the release command as a state machine,
  conservation over every history, runs that stop and are repeated.
- **Inheritance and unions** (`Flattening`, `Wire`, `UnionCodec`, `UnionOpenness`), for any interface
  graph and any union configuration.
- **Small machines** (`PrettyPrint`, `PrettyLines`, `DevServer`, `RustNames`), and `JsText`, the string
  operations of JavaScript that the scripts use.

Code that loops or updates state is a method or a class, proved against a function; what the
code promises is then proved about the function.

## Where the code decides

- Four limits of the type compiler are kept as they are: outer parentheses are stripped without
  matching them, a trailing `[]` takes the whole union, inline objects are split at every `;`,
  and the depth counter starts again at 0 inside `Partial<>` and inline objects.
- A union becomes `oneOf`, which rejects a value of two members; TypeScript accepts it.
- The Swift generator says of repeated properties that the later declaration wins
  (`scripts/generate-swift.ts:262`); its code keeps the first, and so does the model.
- A line that ends in `\r\r\n` loses one carriage return at every rewrite of a changelog, so
  releasing twice, or restarting, is not always safe; the exact conditions are proved.
- A release of a version that is already in a changelog replaces its section and loses the
  bullets there.  A release that meets a changelog without an Unreleased section has written
  the changelogs before it and consumed nothing, so their bullets are printed and pending until
  the run is repeated.  Exactly when bullets are conserved is proved for both.
- Injection writes the discriminant of the first variant of a struct over the one that the
  payload holds, so a payload with another one does not come back.
- A discriminant that two bases declare is looked up in the first, while the schema has the last.
- A field called `self`, `super` or `crate` is escaped with `r#`, which Rust does not accept for
  these three.
- A property such as `Array<A | undefined>` is optional for the clients and required by the
  schema.
- On an open union Go keeps `null` and rejects a discriminant that is no string, and Kotlin does
  the opposite.

## Model

| member | source | states |
|---|---|---|
| `TypeText.SplitUnionType` | scripts/generate-json-schema.ts:301-323 | The loop over depth and current text returns the parts of the splitter that all results below reason about |
| `TypeCompiler.ClassifyShrinks` | scripts/generate-json-schema.ts:193-323 | One look at any text leads only to strictly shorter texts: array elements, record values, union members, stripped `undefined`, inline fields |
| `TypeTermination.RankedTerminates` | scripts/generate-json-schema.ts:193-298 | When the `Partial<>` expansions have ranks, compiling a text never exhausts a stack above the ranks, although the depth counter restarts at 0, and a larger stack changes nothing |
| `TypeTermination.TerminatesWhenRanked` | scripts/generate-json-schema.ts:193-298 | For every text of a ranked project some stack depth suffices |
| `TypeTermination.TrappedNeverCompiles` | scripts/generate-json-schema.ts:247-256 | A set of interfaces that each reach the set again through `Partial<>` never compiles, whatever the stack: overflow or the nesting error |
| `TypeTermination.RankedOrTrapped` | scripts/generate-json-schema.ts:193-298 | Every project either has such ranks or has a trapped set of interfaces, and never both |
| `TypeReading.LiteralsClassified` | scripts/generate-json-schema.ts:209-213 | A printed union of literals is read as the string enum of exactly those values, in order |
| `TypeReading.UnionRead` | scripts/generate-json-schema.ts:258-277 | The text of joined members, when no earlier test matches, is split into exactly those members without `undefined`; a single one replaces the union |
| `TypeReading.ObjectRead` | scripts/generate-json-schema.ts:288-291 | A balanced text in braces is an inline object and nothing else, also when bars are nested in it |
| `TypeRoundTrip.AdmitsRead` | scripts/generate-json-schema.ts:349-351 | `typeAdmitsUndefined` of a printed type is true exactly when the tree is `undefined` or a union with `undefined` as a member |
| `TypeRoundTrip.FieldsReadExactly` | scripts/generate-json-schema.ts:362-379 | The fields found in a printed inline object are the fields of the tree, names, `?` marks and type texts, if and only if no field type is printed with a `;` |
| `TypeRoundTrip.NestedObjectMisread` | scripts/generate-json-schema.ts:367-367 | A concrete failure: `{ a: { b: string; c: number } }` is cut at the inner `;` |
| `TypeRoundTrip.CompileUndoesPrint` | scripts/generate-json-schema.ts:193-323 | For every printable type tree, `Partial<>` included, compiling its text gives exactly the schema of the tree if and only if the tree fits into the nesting limit and the interfaces inlined for `Partial<>` compile; otherwise it is an error, the nesting error when only the limit is exceeded |
| `TypeRoundTrip.PartialSchema` | scripts/generate-json-schema.ts:247-256 | An interface inlined for `Partial<>` requires nothing and describes exactly its declared names, each once and as declared last |
| `TypeRoundTrip.HundredLevels` | scripts/generate-json-schema.ts:193-199 | A hundred levels of arrays compile, and one more does not |
| `SchemaMeaning.CompileKeepsMeaning` | scripts/generate-json-schema.ts:193-383 | The compiled schema of a printed type accepts exactly the JSON values of the type, whatever the definitions that it refers to accept |
| `SchemaMeaning.InterfaceKeepsMeaning` | scripts/generate-json-schema.ts:387-444 | The schema of an interface accepts exactly the objects that have its required properties and whose properties have the types declared last for them |
| `SchemaMeaning.OverlapRejected` | scripts/generate-json-schema.ts:266-269 | A concrete failure: a string is a value of both members of `unknown \| string`, and the `oneOf` of the union rejects it |
| `TypeReferences.CompiledReferences` | scripts/generate-json-schema.ts:718-742 | The definitions that the compiled schema of a printed type refers to are exactly the names in the type: interfaces, enum members without a known value, and what `Partial<>` inlines |
| `Decorated.ImportsCompile` | scripts/generate-json-schema.ts:200-202 | A printed type with `import("...").` put in front of names anywhere compiles like the type |
| `Decorated.CommentsCompile` | scripts/generate-json-schema.ts:362-367 | So does an inline object with such prefixes and with comments anywhere between its braces |
| `BracketText.BracketsHideBars` | scripts/generate-json-schema.ts:301-323 | A bar inside any of the four pairs of brackets, tuples among them, does not split a text |
| `TypeRoundTrip.ReadsUnion` | scripts/generate-json-schema.ts:239-277 | Each trailing `undefined` is cut off, one level each, before the members are split |
| `TypeRoundTrip.ReadsObject` | scripts/generate-json-schema.ts:362-383 | An inline object compiles to its properties and the required names among them, with the depth starting at 0 again |
| `UnionReading.UnionReadExactly` | scripts/generate-json-schema.ts:204-277 | A union of two or more live members is read as that union if and only if its text does not begin with a literal, end in `[]`, or begin and end like one record or one parenthesis |
| `UnionReading.UnionSchemaExactly` | scripts/generate-json-schema.ts:204-277 | Unless its text begins and ends with a parenthesis, such a union compiles to its own schema if and only if none of those forms applies, its members fit into the nesting limit and the interfaces inlined for them compile |
| `UnionReading.TrailingArrayTakesTheUnion` | scripts/generate-json-schema.ts:223-227 | A concrete failure: `A \| B[]` does not compile to the schema of a union with an array |
| `UnionReading.SplitOpened` | scripts/generate-json-schema.ts:301-323 | The splitter loses no opening parenthesis |
| `UndefinedTests.AdmitsExactly` | scripts/generate-json-schema.ts:301-351 | Where `undefined` must stand for the depth-aware test: alone as the first member, or alone behind a bar outside all brackets |
| `UndefinedAgreement.HitExactly` | scripts/generate-go.ts:351-361 | The clients' search (`/\|\s*undefined/`) finds something in a printed type if and only if somewhere in the tree, at any depth, a union has a later member that is `undefined` or an array of it |
| `UndefinedAgreement.AgreeExactly` | scripts/generate-json-schema.ts:430-435 | The schema (`required`) and the clients agree on a property without `?` if and only if the tree has such a union just when it has `undefined` for a member at the top |
| `UndefinedAgreement.AdmitsWithoutHit` | scripts/generate-kotlin.ts:314-316 | The members that the search misses: `undefined` alone, or only as the first member |
| `UndefinedTests.MembersOnlyAgree` | scripts/generate-kotlin.ts:314-316 | When every hit is a whole later top-level member, a field is optional for the clients exactly when the schema does not require it |
| `UndefinedTests.NestedUndefinedDiffers` | scripts/generate-rust.ts:323-324 | The failing family: `Array<A \| undefined>` and the like are optional for the clients and required by the schema |
| `Properties.InlineObjectToSchema` | scripts/generate-json-schema.ts:362-383 | The loop over the fields returns the compiled object, or the first error |
| `Properties.InterfaceToSchema` | scripts/generate-json-schema.ts:387-444 | The loop over the properties returns the compiled interface, or the first error |
| `Properties.InterfaceSchema` | scripts/generate-json-schema.ts:395-441 | The schema of an interface requires exactly the names declared without `?` and without top-level `undefined`, each once, and describes exactly the declared names, each once and as declared last |
| `Properties.PropsOutline` | scripts/generate-json-schema.ts:387-444 | An interface compiles if and only if all its types do, and then lists its names in the order of their first declarations, each with the type of its last |
| `Schema.RefsExactly` | scripts/generate-json-schema.ts:718-742 | The collected names are exactly those of the `#/$defs/` references on some path through the nine kinds of places where a node holds others |
| `Schema.CollectRefTargets` | scripts/generate-json-schema.ts:719-742 | The walk adds exactly those names to the set it is given |
| `RefClosure.ReachableIsLeast` | scripts/generate-json-schema.ts:767-797 | Reachability is the least set that contains the start and is closed under backfilling |
| `RefClosure.PassWithoutAdditions` | scripts/generate-json-schema.ts:775-790 | A pass that adds nothing has found everything reachable |
| `RefClosure.DocumentRefsReachable` | scripts/generate-json-schema.ts:776-777 | At every moment each reference in the document is reachable from the first state |
| `RefClosure.SchemaDocument.CollectDocumentRefs` | scripts/generate-json-schema.ts:776-777 | Gathers the references of the root and of every definition |
| `RefClosure.SchemaDocument.ResolveMissingDefs` | scripts/generate-json-schema.ts:772-797 | Terminates; old definitions stay; the added names are exactly the reachable declared ones, whatever the scan order; fails on exactly the reachable undeclared ones; otherwise no reference dangles |
| `Decimal.NumeralRoundTrip` | scripts/generate-go.ts:2420-2429 | Printing a number and reading it back, without leading zeros |
| `Version.ParseExactly` | scripts/generate-go.ts:2416-2432 | A parser accepts a string if and only if it is the printed form of a triple that fits its integer type, and returns that triple |
| `Version.ParseInjective` | scripts/generate-go.ts:2416-2432 | Equal triples come from equal strings, whatever the two integer types |
| `Version.MatchesExactly` | scripts/generate-kotlin.ts:2547-2550 | The regular expression of the Kotlin and C# parsers accepts exactly the dotted numerals without leading zeros |
| `Version.ParseByLoop` | scripts/generate-rust.ts:2370-2385 | The loop over the parts returns the parsed triple |
| `Version.ParseByExpression` | scripts/generate-csharp.ts:2822-2836 | Matching first and converting afterwards returns the same triple |
| `Negotiation.CaretTestIsRange` | scripts/generate-go.ts:2452-2454 | The emitted test is membership in the interval from the baseline to the baseline with its leftmost non-zero component increased; for 0.0.p just that patch |
| `Negotiation.OutcomeUnique` | scripts/generate-go.ts:2412-2460 | The specification determines the outcome: the first malformed string, the greatest accepted version, or nothing |
| `Negotiation.OutcomeOrderFree` | scripts/generate-go.ts:2446-2459 | The outcome does not depend on the order or repetition of the offers |
| `Negotiation.MalformedFailsAll` | scripts/generate-go.ts:2442-2450 | One malformed string, offered or supported, fails the call, and nothing else does |
| `Negotiation.WidthsAgreeExactly` | scripts/generate-csharp.ts:2819-2862 | The 63-bit and the 64-bit clients give the same outcome if and only if the first string too big for the signed type is malformed for the unsigned one too |
| `Negotiation.WidthsDisagree` | scripts/generate-kotlin.ts:2546-2578 | Concrete cases: a component of 2^63 is selected by the 64-bit clients and rejected by the 63-bit ones; 2^63 - 1 and 2^64 - 1 are the largest selected |
| `Negotiation.Compare` | scripts/generate-go.ts:2433-2439 | The comparison loop is SemVer precedence (SemVer 2.0.0, section 11) on triples |
| `Negotiation.NegotiateGo` | scripts/generate-go.ts:2415-2460 | The nested loops return the specified outcome for 64-bit components |
| `Negotiation.NegotiateRust` | scripts/generate-rust.ts:2369-2400 | So does the loop with tuple comparison |
| `Negotiation.NegotiateSwift` | scripts/generate-swift.ts:2573-2605 | So does the loop with lexicographic order |
| `Negotiation.NegotiateSigned` | scripts/generate-csharp.ts:2819-2862 | The C# and Kotlin loops return the specified outcome for 63-bit components |
| `Negotiation.PrecedesIsBelow` | scripts/generate-swift.ts:2595-2599 | Lexicographic precedence of component lists is version precedence |
| `Markdown.FlattenAfterParse` | scripts/change-fragments.ts:258-278 | The lines of the sections, put together, are the lines of the text; sections begin at exactly the heading lines |
| `Markdown.HeadingExactly` | scripts/change-fragments.ts:261-270 | A section heading is `## ` and a title |
| `Markdown.ParseAfterFlatten` | scripts/change-fragments.ts:258-278 | Parsing the lines of a well-formed document gives it back |
| `Markdown.RenderAfterParse` | scripts/change-fragments.ts:258-286 | Rendering after parsing is the text with `\r\n` replaced and the end trimmed, plus one newline, for every string |
| `Markdown.ParseAfterRender` | scripts/change-fragments.ts:258-286 | Parsing after rendering is the identity on a document if and only if it is stable: well-formed, with a last line that ends in text and no carriage return before a line break |
| `Markdown.ParseMarkdownSections` | scripts/change-fragments.ts:258-278 | The loop over `index` and `end` returns that document |
| `Markdown.RenderMarkdownSections` | scripts/change-fragments.ts:280-286 | The loop that pushes lines returns that text |
| `Fragments.ValidateTargets` | scripts/change-fragments.ts:100-126 | The loop with `seen` keeps exactly the valid first occurrences and reports every other entry, in order |
| `Fragments.CleanTargets` | scripts/change-fragments.ts:108-125 | No problem is reported if and only if all entries are distinct target names |
| `Fragments.ValidateIssues` | scripts/change-fragments.ts:128-151 | The same for issue numbers |
| `Fragments.CleanIssues` | scripts/change-fragments.ts:136-150 | No problem is reported if and only if all entries are distinct positive integers |
| `Fragments.ParseChangeFragment` | scripts/change-fragments.ts:153-212 | Returns the fragment or all problems, never both |
| `Fragments.MessageExactly` | scripts/change-fragments.ts:185-193 | A message is accepted if and only if it is one trimmed non-empty line without a bullet |
| `Fragments.AcceptedIsValid` | scripts/change-fragments.ts:153-212 | Every accepted fragment is valid: message, distinct non-empty targets, distinct positive issues |
| `Fragments.AcceptedExactly` | scripts/change-fragments.ts:153-212 | A file is accepted as a given fragment if and only if it is an object with no members but `type`, `message`, `targets` and `issues`, which say exactly what the fragment has; without `targets` it names all targets, without `issues` none |
| `Fragments.TargetNames` | scripts/change-fragments.ts:5-13 | The seven target names |
| `Fragments.WriteThenParse` | scripts/consume-change-fragments.ts:94-102 | A valid fragment written back is read again as the same fragment without problems |
| `ChangeSections.RenderChangeSections` | scripts/change-fragments.ts:240-256 | The loops over change types and fragments return the specified lines |
| `ChangeSections.OrderedIsStableSort` | scripts/change-fragments.ts:240-256 | The fragments printed for a target are a stable sort, by change type, of exactly the fragments that name it |
| `ChangeSections.ChangeLinesBullets` | scripts/change-fragments.ts:240-256 | The bullet lines are the bullets of those fragments in that order, each once |
| `ChangeSections.ChangeLinesLaidOut` | scripts/change-fragments.ts:240-256 | Blank lines separate groups and follow headings, and never lead or trail |
| `ReleaseReading.ChangeLinesHeaded` | scripts/change-fragments.ts:240-256 | Every bullet stands under the heading that is its type name with a capital; exactly the headings of the types that occur are printed, in order, each once |
| `ReleaseReading.BulletReads` | scripts/change-fragments.ts:233-238 | The issue numbers of a fragment can be read back from its bullet, behind the message |
| `ReleaseReading.SameBullet` | scripts/change-fragments.ts:233-238 | Without the message they cannot: a message may end like a list of issues |
| `ReleaseReading.OneFragmentRelease` | scripts/change-fragments.ts:288-326 | The release section of one fragment, line by line: heading, introduction for the target, type heading and bullet |
| `ReleaseReading.EmptyReleaseTidies` | scripts/change-fragments.ts:309-312 | Releasing a version again without fragments only replaces line ends and trims the end |
| `ReleaseReading.RefusedExactly` | scripts/change-fragments.ts:306-321 | A release is refused if and only if no section is a release of its version and none is `## [Unreleased]` |
| `Changelog.ReleaseSectionBody` | scripts/change-fragments.ts:288-296 | Builds the body of a release |
| `Changelog.ApplyReleaseToChangelog` | scripts/change-fragments.ts:298-326 | Replaces, inserts, normalises or fails as the four branches say |
| `Changelog.ArgumentsArePlain` | scripts/consume-change-fragments.ts:81-86 | Versions and dates that pass the argument tests hold digits, dots and dashes only |
| `Changelog.VersionExactly` | scripts/consume-change-fragments.ts:81-83 | A version argument is accepted if and only if it is three digit strings with dots between them |
| `Changelog.NumbersAreVersions` | scripts/consume-change-fragments.ts:81-83 | In particular every version printed from three numbers |
| `Changelog.DateExactly` | scripts/consume-change-fragments.ts:84-86 | A date argument is accepted if and only if it is four, two and two digits with dashes between them |
| `Reparse.ReadBack` | scripts/change-fragments.ts:258-286 | Reading a written document gives it back except that a carriage return at the end of a line is lost |
| `Editing.OnlyOneSectionChanges` | scripts/change-fragments.ts:298-326 | After a release the sections before and after its place and the preamble are there, in order, up to such carriage returns; the release stands where it was put |
| `Editing.CleanEditKeepsTheRest` | scripts/change-fragments.ts:298-326 | On text without them everything else is kept exactly |
| `Editing.Reapply` | scripts/change-fragments.ts:309-316 | Writing a release a second time changes nothing but the `\r\n` left in the text |
| `Editing.IdempotentExactly` | scripts/change-fragments.ts:298-326 | Writing it again changes nothing if and only if the text written first holds no `\r\n` |
| `Idempotence.IdempotentFromInput` | scripts/change-fragments.ts:298-326 | The same, told from the text before: if and only if no kept line ends in a carriage return once `\r\n` is replaced |
| `Idempotence.ReturnsNotIdempotent` | scripts/change-fragments.ts:258-286 | A concrete changelog, with a line ending in `\r\r\n`, for which writing twice differs |
| `Ledger.ChangeLinesPrint` | scripts/change-fragments.ts:240-256 | A release prints a bullet as often as fragments owe it to the target |
| `Ledger.ReleasePrints` | scripts/change-fragments.ts:288-296 | The written release section prints exactly those bullets |
| `Ledger.ApplyLedger` | scripts/change-fragments.ts:298-326 | After a release a changelog prints what it printed, minus the replaced section, plus what the fragments owe |
| `ReleaseRun.ParseTargets` | scripts/consume-change-fragments.ts:32-53 | Accepts exactly comma-separated lists of distinct target names |
| `ReleaseRun.WorkingTree.ReadFragments` | scripts/change-fragments.ts:214-231 | Reads every file, in order, and reports whether all are valid |
| `ReleaseRun.WorkingTree.WriteAll` | scripts/consume-change-fragments.ts:120-127 | Writes the changelogs one by one and stops at the first failure, or writes nothing in a dry run |
| `ReleaseRun.WorkingTree.ConsumeFiles` | scripts/consume-change-fragments.ts:129-141 | Deletes or rewrites exactly the touched fragment files |
| `ReleaseRun.WorkingTree.ConsumeChangeFragments` | scripts/consume-change-fragments.ts:104-148 | One run of the command is the specified step on changelogs and files, with its exit status |
| `Releases.RewrittenParses` | scripts/consume-change-fragments.ts:94-102 | A rewritten fragment file still parses and keeps its bullet |
| `Releases.RunLedger` | scripts/consume-change-fragments.ts:113-141 | What one run does to printed and pending bullets of every target |
| `Stopped.RunEnds` | scripts/consume-change-fragments.ts:81-141 | How every run ends and what it writes: a usage error exactly for arguments that are not three dotted digit strings, a date and distinct targets; invalid fragments; nothing to consume exactly when no fragment names a target; otherwise it writes up to the first selected changelog without a place, and is done if there is none |
| `Stopped.StoppedLedger` | scripts/consume-change-fragments.ts:120-127 | After any number of writes: the written changelogs print what is still pending for them, less what was replaced, and the others are as before |
| `Stopped.ConservesExactly` | scripts/consume-change-fragments.ts:113-141 | Exactly when a run conserves the bullets of a target, for every way to end: finished, the replaced section prints none; stopped at a missing section, the target was not written or lost as many as it printed; otherwise always |
| `Stopped.RepairedRunFinishes` | scripts/consume-change-fragments.ts:120-127 | Once the missing sections are put in, the repeated run finishes, every bullet is printed and owed as if they had been there from the start, and the working tree is the same if and only if no line kept in the changelogs written before ends in a carriage return |
| `Stopped.RestartConserves` | scripts/consume-change-fragments.ts:104-148 | A repeated run prints and owes exactly what an uninterrupted one does |
| `History.FreshRunConserves` | scripts/consume-change-fragments.ts:113-141 | A run whose version is new to its targets conserves every bullet and leaves only parseable files |
| `History.HistoryConserves` | scripts/consume-change-fragments.ts:104-148 | Over every history of added files, fresh releases, and fresh releases that stop after any number of writes and are repeated, each bullet is at every moment printed or pending, exactly as often as the files that were ever there name it; every file left parses |
| `History.ApplyOutside` | scripts/change-fragments.ts:298-326 | A release prints no bullet outside its own section |
| `History.BulletStands` | scripts/consume-change-fragments.ts:104-148 | Over such a history a bullet that was nowhere and is added once is either pending and not printed, or not pending and printed once, by exactly one section, which is a release of a version that was run |
| `Restart.RestartTexts` | scripts/consume-change-fragments.ts:120-127 | What a run repeated after any number of changelog writes ends with |
| `Restart.RestartExactly` | scripts/consume-change-fragments.ts:120-127 | It ends like an uninterrupted run if and only if no text written before the stop holds a `\r\n` |
| `Idempotence.RestartSafeExactly` | scripts/consume-change-fragments.ts:120-127 | The same condition on the changelogs before the run |
| `Restart.LateRestartLoses` | scripts/consume-change-fragments.ts:129-141 | A restart after fragment files were touched loses exactly the bullets of the files dealt with |
| `ReleaseOrder.ReleaseInserts` | scripts/change-fragments.ts:318-325 | A release of a new version goes directly behind the first Unreleased section; the other headings may lose a carriage return |
| `ReleaseOrder.NewestFirstExactly` | scripts/change-fragments.ts:298-326 | Any sequence of new versions is left newest first, directly behind the first Unreleased section, if and only if no heading before it becomes its heading, by losing carriage returns, before the last release |
| `Flattening.GetAllProperties` | scripts/generate-csharp.ts:273-284 | Lists inherited properties before own ones, base by base |
| `Flattening.GetAllInterfaceProperties` | scripts/generate-json-schema.ts:171-189 | The same with repetitions removed at every level by the map |
| `Flattening.LevelwiseIsDedupe` | scripts/generate-json-schema.ts:171-189 | On every acyclic graph, removing repetitions at every level equals removing them once at the end |
| `Flattening.DedupeExactly` | scripts/generate-csharp.ts:318-321 | Setting all properties in a map keeps every name where it is first declared, with its last declaration |
| `Flattening.LastExactly` | scripts/generate-csharp.ts:318-321 | The last declaration of a name has no other behind it |
| `Flattening.ExtractMostDerived` | scripts/generate-csharp.ts:305-371 | The two loops with `mostDerived` and `seen` return exactly that list |
| `Flattening.SchemaMatchesCSharp` | scripts/generate-csharp.ts:305-371 | C# and the JSON Schema list the same properties for every interface |
| `Flattening.ExtractFirst` | scripts/generate-go.ts:309-318 | The loop with `seen` keeps the first declaration of each name |
| `Flattening.FirstWinsExactly` | scripts/generate-swift.ts:256-267 | Every name in order of first declaration, with its first declaration |
| `Flattening.DifferOnlyWhereRedeclared` | scripts/generate-rust.ts:277-285 | Go, Rust, Swift and Kotlin list the same names in the same order and differ exactly where the last declaration of a name differs from the first |
| `UnionCodec.ByStruct` | scripts/generate-kotlin.ts:561-564 | The emitter's map holds the first variant of every struct |
| `UnionCodec.FirstOfExactly` | scripts/generate-kotlin.ts:556-570 | The variant of a struct is the first one listed |
| `UnionCodec.LookupExactly` | scripts/generate-go.ts:660-668 | The variant of a wire value is the first one listed |
| `UnionCodec.GoUnion.UnmarshalJSON` | scripts/generate-go.ts:646-684 | Assigns the decoded value, or fails and leaves the old one |
| `UnionCodec.GoUnion.MarshalJSON` | scripts/generate-go.ts:686-717 | Returns the encoded value; a union without a value is written as `null` |
| `UnionCodec.InjectedReads` | scripts/generate-kotlin.ts:628-637 | With injection, a payload is read back with the discriminant of the first variant of its struct in place of its own |
| `UnionCodec.InjectionOverwrites` | scripts/generate-go.ts:701-712 | A concrete failure: a struct that stores its own discriminant, whatever it holds, comes back as `schedule` |
| `UnionCodec.RoundTripExactly` | scripts/generate-kotlin.ts:587-641 | Decoding undoes encoding if and only if the payload has no discriminant of its own or that of its first variant (with injection), or has one that its struct is configured for (without); in Go an empty wire value can stand for a missing one |
| `UnionCodec.DeclaredReturnExactly` | scripts/generate-kotlin.ts:549-641 | All payloads whose discriminant is of its declared type, enum members or literals, come back in both languages if and only if every declared value is configured for its struct, and is its first one with injection |
| `UnionCodec.UnknownSurvivesExactly` | scripts/generate-kotlin.ts:594-624 | An unrecognised discriminant survives decoding and encoding in both languages if and only if the enum that the configuration or else the flattened discriminants name is open, or none is named and the fallback is set; otherwise both reject it |
| `UnionCodec.MissingDiscriminants` | scripts/generate-go.ts:646-684 | An object without the discriminant is rejected by closed unions in both languages and kept by open ones |
| `UnionCodec.PrimitiveDiscriminants` | scripts/generate-kotlin.ts:591-596 | Kotlin takes a discriminant that is no string by its text; Go rejects it, and takes `null` for the empty text |
| `UnionCodec.RelayExactly` | scripts/generate-kotlin.ts:549-641 | What a client writes for an object it has read keeps its discriminant if and only if the variant is the first of its struct (with injection) or the struct stores it (without), and when it is read again as the same value |
| `UnionCodec.LanguagesAgreeExactly` | scripts/generate-go.ts:646-684 | Kotlin and Go decode alike if and only if the union is closed, or the input is an object whose discriminant is absent, a string or null, or is neither an object nor null |
| `UnionCodec.UnknownRelays` | scripts/generate-go.ts:670-697 | What is read as unknown is the whole input, and is written back unchanged |
| `UnionOpenness.FoundExactly` | scripts/enum-compatibility.ts:58-76 | A discriminant is found in the hierarchy if and only if it is among the flattened properties |
| `UnionOpenness.FoundIsMostDerivedExactly` | scripts/enum-compatibility.ts:58-76 | The lookup finds the declaration that the schema and C# keep if and only if the first interface in pre-order and the last in the flattened list that declare it declare it alike |
| `UnionOpenness.TwoBasesDiffer` | scripts/enum-compatibility.ts:58-76 | A concrete failure: of two bases the lookup takes the first and the schema the last |
| `UnionOpenness.AllowsUnknownExactly` | scripts/enum-compatibility.ts:92-135 | Code is emitted, and is open, if and only if every struct has the discriminant and these name one declared enum that is open, or none and the fallback is set |
| `UnionOpenness.EnumRefsOfMembers` | scripts/enum-compatibility.ts:107-109 | In a discriminant type that is a union of enum members exactly these members are found |
| `UnionOpenness.DiscriminatedUnionAllowsUnknown` | scripts/enum-compatibility.ts:92-135 | Open exactly as the one enum that the discriminants name; the fallback when they name none; an error when a variant has no discriminant or they name several |
| `PrettyPrint.PrettyPrintNestedType` | scripts/generate-markdown.ts:263-294 | The loop that skips ahead and trims its output returns the layout computed one separator at a time |
| `PrettyPrint.OnlySpaceChanges` | scripts/generate-markdown.ts:263-294 | Only white space changes |
| `PrettyPrint.IdempotentExactly` | scripts/generate-markdown.ts:252-294 | Printing twice is printing once if and only if removing the comment blocks leaves none |
| `PrettyPrint.Idempotent` | scripts/generate-markdown.ts:263-294 | In particular for every text without the opening of a documentation block |
| `PrettyPrint.BlockInBlock` | scripts/generate-markdown.ts:252-255 | A concrete text for which it is not: removing one block makes another |
| `PrettyPrint.LayoutOfCollapsed` | scripts/generate-markdown.ts:264-264 | Collapsing white space first does not change the layout |
| `PrettyLines.LinesExactly` | scripts/generate-markdown.ts:263-294 | At every position of the result: a line break follows every `{`, `;` and `,` that anything follows and precedes every later `}`; each line begins with two spaces per open brace, its own closing one counted; there is no other white space than single spaces |
| `DevServer.DevLoop.Generate` | scripts/dev.ts:17-31 | Queues when a regeneration runs, starts one otherwise |
| `DevServer.DevLoop.OnChange` | scripts/dev.ts:75-79 | A watched change replaces the pending timer |
| `DevServer.DevLoop.OnTimer` | scripts/dev.ts:78-78 | A timer that fires calls the generator |
| `DevServer.DevLoop.OnClose` | scripts/dev.ts:31-42 | A regeneration that ends, well or not, starts the queued one |
| `DevServer.WatchedExactly` | scripts/dev.ts:75-76 | A change counts if and only if its file name ends in `.ts` |
| `DevServer.Safety` | scripts/dev.ts:14-79 | In every reachable state at most one regeneration and one timer, queued implies running, no more starts than firings, and quiet implies that the last start came after the last change |
| `DevServer.ComesToRest` | scripts/dev.ts:14-79 | Once files stop changing at most four more events happen, and none is left exactly when the server is quiet |
| `RustNames.SnakeCaseIsSnake` | scripts/generate-rust.ts:77-83 | The two regular-expression replacements and lower-casing are one pass over the name |
| `RustNames.RenamedExactly` | scripts/generate-rust.ts:91-106 | A field keeps its wire name, keyword escape or not, if and only if it has no leading underscore, every capital starts a word and no underscore stands before a letter or digit |
| `RustNames.AlphanumericExactly` | scripts/generate-rust.ts:91-106 | For letters and digits: if and only if each capital follows a lower-case letter or digit, or precedes a lower-case letter and is not the first |
| `RustNames.LowerCamel` | scripts/generate-rust.ts:85-106 | In particular for every lower-camel name without adjacent capitals |
| `RustNames.NoCollision` | scripts/generate-rust.ts:91-106 | Two fields that keep their names never get the same Rust name |
| `RustNames.EscapedExactly` | scripts/generate-rust.ts:72-106 | The Rust name is the snake-case name, with `r#` in front exactly when that is a Rust keyword, so it never is one; the wire name stays |
| `RustNames.RenamedCollide` | scripts/generate-rust.ts:77-106 | A renamed field can collide: `userID` and `userId` |

## Left out

- The TypeScript registry's own negotiation (it compares with doubles): not among the five emitted loops.
- C# null arguments, and the difference between the C# and Kotlin loops, which are one method here: they read the same components in the same order.
- `ts-morph`: a project is a map from names to properties, aliases and enums; documentation, `@integer`, `minimum`, `maximum`, `minLength` and `uniqueItemsBy` tags only decorate nodes or throw.
- TypeCompiler.Compile: an absent list and an empty one are the same in a schema node, and the call stack is counted in nested `Partial<>` expansions.
- TypeRoundTrip.CompileUndoesPrint: the trees have no comments or line breaks, which Decorated.ImportsCompile and Decorated.CommentsCompile add, and literals hold no quote, bracket, bar, semicolon, star or line end, because the text does not say where those end.
- Decorated.CommentsCompile: comments in an object inside an array, a record or a union, which is read before comments are removed, and comments with unmatched brackets.
- SchemaMeaning.CompileKeepsMeaning: numbers have no `integer`, `minimum` or `maximum`, and references are taken from an arbitrary table of definitions.
- UndefinedAgreement.AgreeExactly: compares the two tests for `undefined`; clients also make a property optional whose mapped type is nullable.
- UnionReading.UnionSchemaExactly: leaves out unions whose text begins and ends with a parenthesis, because their outer parentheses are stripped and the parts that remain can compile to anything; UnionReading.UnionReadExactly covers them.
- Properties.InlineObjectToSchema: the fields are found by the function that TypeRoundTrip.FieldsReadExactly is about.
- RefClosure.SchemaDocument.ResolveMissingDefs: the order of `$defs` keys, and names such as `constructor` that a JavaScript object has by birth.
- Flattening.GetAllProperties: graphs in which an interface inherits from itself, which TypeScript rejects and on which the originals do not end.
- Flattening.ExtractFirst: mapping types and names to the target language, which is done per property after the list is made.
- UnionOpenness.DiscriminatedUnionAllowsUnknown: one interface per name, where the original goes on to the next source file; the tags of an enum are given as a flag, and an empty `discriminatorEnum` as an absent one.
- UnionCodec.GoUnion.MarshalJSON: how a struct reads and writes its discriminant and its other members are parameters, and it always writes an object; the order of object members and the bytes of raw JSON are not modelled.
- UnionCodec.DeclaredReturnExactly: a declared type is the enum members it names and its literals, which is how discriminants are declared.
- Strings are sequences of Unicode scalar values, where JavaScript counts UTF-16 units; lower and upper case in names is that of ASCII.
- ChangeSections.RenderChangeSections: issue numbers are printed in full, where JavaScript turns to exponents from 1e21.
- Reading and writing files, `JSON.parse`, missing files, the default date and the console: files are maps, and a file holds either invalid JSON or the value that `JSON.parse` delivers, in which a number is a double.
- DevServer.DevLoop.OnChange: time is the order of events; the initial generation, VitePress and signals are left out.
- The C# and Swift union emitters, `SnapshotState`, the literal tables and all emitted boilerplate: constants, or the same shapes again.
- `scripts/generate-action-origin.ts`, `scripts/read-*.ts` and the documentation version builder: filters and file plumbing.
