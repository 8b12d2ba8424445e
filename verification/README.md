# Verified model of the XDFC business platform's core algorithms

The platform is a manufacturing and sales system: a Go server, a Rust cutting engine and a web client with its own build
scripts. This project models the algorithms of the server and the build that carry state, order or meaning from one step to
the next, and proves what they promise. `dafny verify dfyconfig.toml` checks all of it.

| file | what it models |
|---|---|
| ColorMix.dfy | the text rewriting of `color-mix(... transparent)` for an old browser, and its grammar |
| FallbackColors.dfy | the notation of the rewritten values and the colours that both notations denote |
| ThemeAliases.dfy | the closure of theme colours under aliases |
| Selectors.dfy, CompatibilityScopes.dfy | the scoping of selectors, and their specificity |
| CssFallbacks.dfy | the insertion of guarded fallbacks into a rule tree, and how browsers read it |
| CascadeOrder.dfy | the order in which a legacy browser reads the result, and the cascade |
| FallbackScopes.dfy | which fallbacks are limited to the registered surfaces |
| CssPlugin.dfy | the whole pass over one stylesheet |
| ThemeTables.dfy | what the theme tables hold of a stylesheet |
| ThemeResolution.dfy | what the custom properties of the appended block resolve to in either theme |
| MaterialCache.dfy | the cache of material lists keyed by a version counter, as interleaved steps |
| LeaseLock.dfy | the distributed lock with token and expiry, as interleaved steps, and the report of scheduled jobs |
| BomSections.dfy | the table of BOM sections and its create, patch and delete transactions |
| BomEffects.dfy | what these transactions do in terms of what is sent and stored |
| KnowledgeContent.dfy | the sanitizer of rich text on HTML token streams, and the media detector |
| KnowledgeOutput.dfy | what the sanitizer writes, tag by tag and attribute by attribute |
| KnowledgeText.dfy | the extraction of plain text from rich text |
| KnowledgeLayout.dfy | the extracted text in terms of lines and words |
| KnowledgeSearch.dfy | query tokens, scoring and the database prefilter |
| KnowledgeRanking.dfy | what a query is cut into, where its words are looked for and what a match is worth |
| JsonText.dfy | the stored and the marshalled JSON text of a list |
| MachineValues.dfy | the machine form of keys and values |
| OptionCleanup.dfy | the start-up merge of duplicate attribute options |
| CleanupEffects.dfy | which options the merge leaves and which values it changes |
| TemplateMigration.dfy | the backfill and migration of template attribute definitions |
| MigrationEffects.dfy | which bindings the migration adds and what it copies into them |
| PrintBatches.dfy | base-36 serials, their allocation, and the activation of batches |
| SalesSummary.dfy | the aggregation of sales orders per customer |
| SalesEffects.dfy | the aggregated sums in terms of the rows |
| AuditArchive.dfy | the archiving of old audit logs |
| Pieces.dfy | texts cut at separators |
| Text.dfy | trimming, searching, joining and ordering of text |

Code that updates things in place is modelled by classes and loops whose contracts give the whole new state as a function of
the old one; the promises are then proved about those functions, and what the functions compute is stated once more in terms
of inputs and outputs alone. Concurrent protocols are state machines over their atomic
steps, and the theorems speak of every run. What lies outside the repository's own logic (colour parsing, URL rules,
character references, date parsing, the status machine, pinyin, the clock) is a parameter.

## What does not hold

Each of these is shown by a lemma with a concrete input, or by an exact condition:

- a fallback overrides a later opaque declaration of the same rule (`CascadeOrder.SameRuleIsReordered`, exactly when:
  `CascadeOrder.ReadFirstExactly`), and a gate nested in a rule gets a fallback outside the compatibility scopes
  (`FallbackScopes.NestedGateEscapesScope`, `FallbackScopes.AtRuleEscapesScope`, exactly when:
  `FallbackScopes.FallbacksStayInScope`);
- a token that is a colour in one theme only leaves the other theme with references to nothing
  (`ThemeResolution.DarkAliasLeadsNowhere`, exactly when: `ThemeResolution.PartsResolve`), and a theme token with a generated
  name displaces the channels of another (`ThemeResolution.GeneratedNameClashes`, exactly when:
  `ThemeResolution.SurfaceReadsExactly`);
- two material requests can share a cache key (`MaterialCache.KeyCollision`, exactly when: `MaterialCache.KeyIsOwn`), and
  resetting the version counter, or assuming its start when the reset fails too, serves lists from before a published write
  (`MaterialCache.ResetServesStaleList`, `MaterialCache.AssumingServesStaleList`, exactly when:
  `MaterialCache.AnswerMissesExactly`; which steps break the freshness of entries: `MaterialCache.ResetBreaksExactly`,
  `MaterialCache.AssumingBreaksExactly`);
- the historical lock release keeps the lock sound only when no lease is held (`LeaseLock.LegacyReleaseBreaksHeldLeases`,
  `LeaseLock.TwoHolders`), and a job whose own error says that another lock is busy is reported as skipped although it ran
  (`LeaseLock.SkippedExactly`, `LeaseLock.RanButSkipped`), and a call whose set command got no answer fails and still keeps all
  others out until its lease runs out (`LeaseLock.UnansweredLeaseLocksOut`, exactly when: `LeaseLock.LeaseChangesExactly`);
- sanitizing is not idempotent on carriage returns written as character references and on an image key with the letter long
  s (`KnowledgeContent.ReturnIsNotSettled`, `KnowledgeContent.LongSIsNotSettled`, exactly when:
  `KnowledgeContent.SettlesExactly`); a second pass always settles;
- an end tag of br changes the extracted text (`KnowledgeText.BreakEndJoinsLines`, exactly when:
  `KnowledgeText.ExtractionAgreesExactly`);
- a search that matches only through a category alias, or through a double quote or a control character of a keyword, is lost
  in the prefilter (`KnowledgeSearch.ClosedLoopIsMissed`, `KnowledgeSearch.QuoteIsMissed`, exactly when:
  `KnowledgeSearch.CandidatesExactly`);
- a patch that changes nothing gives a section with several names a new version all the same (exactly when:
  `BomSections.IdlePatchIsIdleExactly`);
- the option cleanup leaves an attribute value with white space at its ends behind, although it repeats an option exactly
  (exactly when: `OptionCleanup.RepeatedValueFollowsExactly`);
- an activation whose conditional update changes no row is reported as successful (`PrintBatches.LostActivationIsReported`,
  exactly when: `PrintBatches.ReportedTookEffectExactly`), and an activation that read before a scrap removes the scrap mark
  (`PrintBatches.ScrapIsOverwritten`, exactly when: `PrintBatches.ScrappedExactly`);
- the text of a customer's last order date depends on row order, when dates cannot be read and when one time is written in two
  ways (`SalesSummary.LastDateKeepsFirst`, exactly when: `SalesSummary.LastDateIgnoresOrder`);
- a torn archive write makes the next line of that file unreadable (`AuditArchive.TornRetry`, exactly when:
  `AuditArchive.AppendedAreReadable`).

## Model

| member | source | states |
|---|---|---|
| ColorMix.SplitTopLevelArguments | scripts/chrome109-business-content-and-floating-surface-color-fallbacks-postcss-plugin.js:122-136 | the loop over the value finds exactly the trimmed pieces between commas outside parentheses |
| ColorMix.DescribeDecidesGrammar | scripts/chrome109-business-content-and-floating-surface-color-fallbacks-postcss-plugin.js:138-158 | a text is described as token d with weights ws if and only if it spells, with any white space, a nest of color-mixes with transparent whose innermost colour is the known token d and whose weights from the inside out are ws |
| ColorMix.GrammarWrittenOut | scripts/chrome109-business-content-and-floating-surface-color-fallbacks-postcss-plugin.js:138-151 | the grammar in characters: `var(` name `)`, or `color-mix(in oklab, ` colour weight `, transparent)` with white space between the parts, the weight digits and dots with a percent sign or the shadow alpha |
| ColorMix.DescribeComplete | scripts/chrome109-business-content-and-floating-surface-color-fallbacks-postcss-plugin.js:138-158 | every spelling of a mix of a known token is described, at any nesting depth |
| ColorMix.DescribeSound | scripts/chrome109-business-content-and-floating-surface-color-fallbacks-postcss-plugin.js:138-158 | every described text is such a spelling, given back as a mix |
| ColorMix.PiecesCoverValue | scripts/chrome109-business-content-and-floating-surface-color-fallbacks-postcss-plugin.js:160-182 | cutting a value into scanned spans and the text between loses and reorders nothing |
| ColorMix.CloseParenthesis | scripts/chrome109-business-content-and-floating-surface-color-fallbacks-postcss-plugin.js:166-172 | the inner scan stops where the parentheses opened by the span are closed, or at the end of the value |
| ColorMix.ReplaceTransparentColorMixes | scripts/chrome109-business-content-and-floating-surface-color-fallbacks-postcss-plugin.js:160-182 | the scanning loop ends and yields the value with each scanned span rewritten on its own and all other text kept |
| ColorMix.UnchangedIffNothingDescribable | scripts/chrome109-business-content-and-floating-surface-color-fallbacks-postcss-plugin.js:160-182 | the result equals the input if and only if no scanned span is describable |
| ColorMix.SpelledMixIsRewritten | scripts/chrome109-business-content-and-floating-surface-color-fallbacks-postcss-plugin.js:160-182 | a spelled mix that is the first span is rewritten as a whole, however deeply it nests, and the scan goes on behind it |
| FallbackColors.FallbackIsPrinted | scripts/chrome109-business-content-and-floating-surface-color-fallbacks-postcss-plugin.js:176-178 | the text that replaces a described mix is the print of one term: the token's channels property over its alpha property times one factor for each weight, from the inside out |
| FallbackColors.PrintIsInjective | scripts/chrome109-business-content-and-floating-surface-color-fallbacks-postcss-plugin.js:176-178 | different terms have different texts, so the colour that a text denotes is determined |
| FallbackColors.FallbackDenotesMix | scripts/chrome109-business-content-and-floating-surface-color-fallbacks-postcss-plugin.js:153-178 | at any nesting depth the printed text, evaluated under custom properties that give the token its colour, denotes the same premultiplied colour as the nested mix with transparent, every printed decimal being read as its hundredth (section 12.3 of CSS Color Module Level 4) |
| ThemeTables.TablesHoldLast | scripts/chrome109-business-content-and-floating-surface-color-fallbacks-postcss-plugin.js:90-106 | for every stylesheet, the dark table holds for each token exactly what its last colour or alias among the declarations of the rules `.dark` says, the light table the same of the rules that list `:root` or `:host`, at any depth; each token once, in the order of first declarations |
| ThemeResolution.DeclaredExactly | scripts/chrome109-business-content-and-floating-surface-color-fallbacks-postcss-plugin.js:297-318 | in the rule of a theme, what is read for a token, its channels or its alpha is what the token's last entry declares for it, if and only if no known token with that very name for one of its parts is declared later with a different text |
| ThemeResolution.SurfaceReadsExactly | scripts/chrome109-business-content-and-floating-surface-color-fallbacks-postcss-plugin.js:290-320 | the same for what a surface reads from the whole block in the light and in the dark theme, the dark rule coming after the light one |
| ThemeResolution.PartsResolve | scripts/chrome109-business-content-and-floating-surface-color-fallbacks-postcss-plugin.js:297-317 | when the part is displaced so neither at a token nor at the aliases that it leads to, in the light and in the dark theme the token and its channels and alpha properties resolve through the alias chains of the appended block exactly when the token has a colour in that theme, and then to that colour's texts |
| ThemeResolution.RewrittenSpansKeepTheirColor | scripts/chrome109-business-content-and-floating-surface-color-fallbacks-postcss-plugin.js:173-178 | every rewritten span spelled a mix of a known token, and on a surface the text in its place denotes that mix's colour in either theme, when channels and alpha of its token and of the aliases behind it are not displaced; it denotes none exactly when the token has no colour in that theme |
| ThemeResolution.DarkAliasLeadsNowhere | scripts/chrome109-business-content-and-floating-surface-color-fallbacks-postcss-plugin.js:113-118 | a token with a static light colour and a dark alias to no colour is known, and in the dark theme the block refers to a property that nothing declares |
| ThemeResolution.GeneratedNameClashes | scripts/chrome109-business-content-and-floating-surface-color-fallbacks-postcss-plugin.js:82-88 | a theme token that bears another one's generated name takes the place of its channels when it is declared later, and does no harm when it is declared earlier |
| ThemeAliases.KnownColors | scripts/chrome109-business-content-and-floating-surface-color-fallbacks-postcss-plugin.js:107-119 | the fixpoint loop ends with exactly the tokens from which a chain of aliases in either theme reaches a directly coloured token |
| ThemeAliases.ReachingIsLeastClosed | scripts/chrome109-business-content-and-floating-surface-color-fallbacks-postcss-plugin.js:113-118 | that set contains the coloured tokens, is closed under aliases, and lies in every set that is |
| ThemeAliases.AliasCyclesAreExcluded | scripts/chrome109-business-content-and-floating-surface-color-fallbacks-postcss-plugin.js:113-118 | tokens whose aliases only lead to one another are not known colours |
| ThemeAliases.DeclarationOrderDoesNotMatter | scripts/chrome109-business-content-and-floating-surface-color-fallbacks-postcss-plugin.js:113-118 | the same declarations in another order make the same tokens known |
| Selectors.ScopeSelectorSubject | scripts/chrome109-business-content-and-floating-surface-color-fallbacks-postcss-plugin.js:184-202 | the loop computes the scoped selector, whose place ScopeComesFirst determines |
| Selectors.ScopeComesFirst | scripts/chrome109-business-content-and-floating-surface-color-fallbacks-postcss-plugin.js:184-202 | for every selector the scope stands at the least position of a `::` that is neither escaped nor inside brackets, or at the end when there is none, and the selector is otherwise kept |
| CompatibilityScopes.ScopesListed | scripts/chrome109-business-content-and-floating-surface-color-fallbacks-postcss-plugin.js:3-32 | the registered surfaces and the surfaces with a default colour, in order |
| CompatibilityScopes.SubjectSpelled | scripts/chrome109-business-content-and-floating-surface-color-fallbacks-postcss-plugin.js:33-34 | the scope of a fallback lists each surface and everything below it, the roots are the surfaces themselves |
| Selectors.ScopeKeepsSpecificity | scripts/chrome109-business-content-and-floating-surface-color-fallbacks-postcss-plugin.js:34 | the scope is one simple selector more, a `:where()`, so the scoped selector has the specificity of the selector itself, with a pseudo-element behind it or not (section 17 of Selectors Level 4) |
| CssFallbacks.InsertScopedColorFallbacks | scripts/chrome109-business-content-and-floating-surface-color-fallbacks-postcss-plugin.js:231-277 | the in-place loop over a snapshot of the container yields the specified tree: each guarded fallback directly behind its source node, at every depth |
| CssFallbacks.AllActiveUnchanged | scripts/chrome109-business-content-and-floating-surface-color-fallbacks-postcss-plugin.js:236-276 | for every tree and every reader that skips the guarded condition, whatever it does with other conditions, the transformed tree reads as the original, node for node (section 6 of CSS Conditional Rules Module Level 3) |
| CssFallbacks.OriginalStaysIntact | scripts/chrome109-business-content-and-floating-surface-color-fallbacks-postcss-plugin.js:247-275 | removing the guarded blocks from the result gives the original tree back |
| CascadeOrder.LegacyOrder | scripts/chrome109-business-content-and-floating-surface-color-fallbacks-postcss-plugin.js:231-277 | a browser without oklch and color-mix reads the result in source order, except exactly the pairs of a rule's own fallback and what else stands in that rule |
| CascadeOrder.ReadFirstExactly | scripts/chrome109-business-content-and-floating-surface-color-fallbacks-postcss-plugin.js:255-275 | of two declarations it reads, the one later in the source is read first if and only if the other is an own fallback of a rule outside gates that holds them both, and it is none itself |
| CascadeOrder.RankIsKept | scripts/chrome109-business-content-and-floating-surface-color-fallbacks-postcss-plugin.js:223-228 | whatever a legacy browser reads has, for every element, the specificity of the declaration it was written as or made from |
| CascadeOrder.LaterRuleStillWins | scripts/chrome109-business-content-and-floating-surface-color-fallbacks-postcss-plugin.js:269-275 | where the source gives a later declaration at least the specificity of an earlier one, it beats that one and any fallback made from it, unless that is an own fallback of a rule around both |
| CascadeOrder.SameRuleIsReordered | scripts/chrome109-business-content-and-floating-surface-color-fallbacks-postcss-plugin.js:255-275 | a concrete rule in which the fallback comes after, and so overrides, a later opaque declaration of the same rule |
| CssFallbacks.GetDueFallbacks | scripts/chrome109-business-content-and-floating-surface-color-fallbacks-postcss-plugin.js:204-276 | the fallbacks a legacy browser reads are exactly the rewritten declarations outside keyframes and inactive conditions that stand directly in a rule or below a color-mix gate |
| CssFallbacks.GateSpelled | scripts/chrome109-business-content-and-floating-surface-color-fallbacks-postcss-plugin.js:217-221 | a gate is a supports rule that asks, after any white space, for a color-mix |
| CssFallbacks.KeyframesSpelled | scripts/chrome109-business-content-and-floating-surface-color-fallbacks-postcss-plugin.js:209 | keyframes are the at-rules whose name ends so, vendor prefixes included |
| FallbackScopes.FallbacksStayInScope | scripts/chrome109-business-content-and-floating-surface-color-fallbacks-postcss-plugin.js:204-229 | for trees whose own selectors are not scoped already: in every legacy browser every fallback stands in a rule limited to the compatibility scopes, at-rules and nested rules in between or not, if and only if, below each gate, every rewritten declaration stands at any depth in a rule that has a rewritten declaration of its own |
| FallbackScopes.NestedGateEscapesScope | scripts/chrome109-business-content-and-floating-surface-color-fallbacks-postcss-plugin.js:216-221 | a gate nested in a rule violates that condition, and the same inside another gate does not |
| FallbackScopes.AtRuleEscapesScope | scripts/chrome109-business-content-and-floating-surface-color-fallbacks-postcss-plugin.js:222-228 | below a gate, an at-rule nested in a rule violates it when the rule has no rewritten declaration of its own, and does not when it has one |
| CssPlugin.Stylesheet.OnceExit | scripts/chrome109-business-content-and-floating-surface-color-fallbacks-postcss-plugin.js:283-338 | the pass leaves the tree alone unless `--foreground` is a known colour, and otherwise inserts the fallbacks and appends the compatibility block |
| CssPlugin.PassIsInvisible | scripts/chrome109-business-content-and-floating-surface-color-fallbacks-postcss-plugin.js:283-338 | a reader that skips guarded blocks sees no change of the whole stylesheet |
| CssPlugin.PassKeepsCascadeOrder | scripts/chrome109-business-content-and-floating-surface-color-fallbacks-postcss-plugin.js:332-337 | a legacy browser reads the fallbacks in cascade order and the compatibility block after everything else |
| MaterialCache.KeyInjective | server/handlers/materials.go:97 | two requests share a cache key if and only if versions, options, pages and sizes agree and category and search text agree when written one after the other |
| MaterialCache.KeyIsOwn | server/handlers/materials.go:97 | a request shares its key with no other request if and only if the separator occurs once in that text |
| MaterialCache.KeyVersion | server/handlers/materials.go:97 | equal keys always belong to the same version, whatever the category and the search text hold |
| MaterialCache.KeyCollision | server/handlers/materials.go:97 | two different requests that share a key, the category of one without a colon |
| MaterialCache.StepKeepsValid | server/handlers/materials.go:69-156 | every atomic step of readers and writers keeps the invariant that cached, loaded and answered lists contain each write whose increment reached their version; resets while nothing lies beyond version 1, and requests that assume version 1 once the counter has reached it, are among the steps |
| MaterialCache.AnswersExactly | server/handlers/materials.go:95-156 | a request is answered by the entry of its key or by the list it computed from all writes committed by then, cached or not, and by no other step |
| MaterialCache.CountersMoveExactly | server/handlers/materials.go:69-86 | committed writes are only added, and the counter moves by one after a commit, from nothing to 1, or back to 1 by a reset |
| MaterialCache.FilledIsServed | server/handlers/materials.go:100-156 | over every run, until a key is evicted, dropped or filled again, all its requests can be answered with the list that was filled |
| MaterialCache.GoneIsNotServed | server/handlers/materials.go:104-115 | over every run, an entry that is evicted or does not decode is served to nobody until its key is filled again |
| MaterialCache.RequestsCanFinish | server/handlers/materials.go:89-156 | from every state a request can be answered without the cache |
| MaterialCache.LaterRequestsSeeTheWrite | server/handlers/materials.go:69-156 | over every such interleaving, a request that reads the version after a writer's increment answers with that writer's commit, from the cache or not, and so does one that assumes version 1 when the increment has not gone beyond it |
| MaterialCache.EntriesStayFresh | server/handlers/materials.go:81-86 | over every such interleaving, each cache entry contains every write whose increment reached the entry's version |
| MaterialCache.RequestsGetTheirOwnList | server/handlers/materials.go:97-104 | over every such interleaving, a request in whose text the separator occurs once is answered with a list computed for it |
| MaterialCache.AnswerMissesExactly | server/handlers/materials.go:104-156 | over every interleaving, with resets and assumed versions anywhere: a request that comes after a commit is answered without it if and only if it hits an entry that was computed without it |
| MaterialCache.ResetBreaksExactly | server/handlers/materials.go:73-77 | resetting the counter keeps the freshness invariant if and only if no published write, reader or cache entry lies beyond version 1 |
| MaterialCache.ResetServesStaleList | server/handlers/materials.go:73-77 | a run in which a failed read of the counter resets it to 1 and the next request is answered without a published write |
| MaterialCache.AssumingBreaksExactly | server/handlers/materials.go:74-76 | a request whose reset fails too and that assumes version 1 keeps the invariant if and only if the counter has reached 1 |
| MaterialCache.AssumingServesStaleList | server/handlers/materials.go:74-76 | a run in which such a request is answered without a published write |
| LeaseLock.StepKeepsValid | server/db/locking.go:38-100 | every step that is not a historical release of a held lease keeps the lock's invariant |
| LeaseLock.LeaseChangesExactly | server/db/locking.go:38-100 | the stored lease is taken exactly by a set command that finds none or one that has run out, answered or not, is deleted exactly by a release that finds a live one of its own token and by the historical release, and else stays |
| LeaseLock.EntersExactly | server/db/locking.go:80-88 | a call enters exactly when no lease is stored that has not run out, and then has one of the asked length; otherwise it is refused as busy |
| LeaseLock.LeasesAreAsStarted | server/db/locking.go:70-92 | over every run a call has the token and the length of lease that it was started with |
| LeaseLock.UnansweredLeaseLocksOut | server/db/locking.go:81-84 | a call whose set command got no answer fails, and its lease keeps all others out until it runs out |
| LeaseLock.CallsCanFinish | server/db/locking.go:70-100 | from every state a call can end |
| LeaseLock.OutcomeSays | server/db/locking.go:93-99 | a call reports exactly the errors of its function and of its release, none exactly when there is neither |
| LeaseLock.AtMostOneHolder | server/db/locking.go:70-100 | over every run at most one call is inside its function with a lease that has not run out, and Redis holds that call's token |
| LeaseLock.OverlapMeansOutlived | server/db/locking.go:70-100 | two calls are inside together only if the earlier one's lease ran out before the later one got the lock |
| LeaseLock.OnlyTheOwnerReleases | server/db/locking.go:18-23 | a live lease ends only by the script run for its own call or by the clock |
| LeaseLock.NotOwnedExactlyAfterExpiry | server/db/locking.go:43-50 | the release reports a lost lease if and only if the lease has run out, and otherwise frees the key |
| LeaseLock.LegacyReleaseBreaksHeldLeases | server/db/locking.go:62-67 | the historical release keeps the invariant if and only if no call holds its lease at that moment |
| LeaseLock.LegacyReleaseAdmitsSecondHolder | server/db/locking.go:62-67 | from every state with a holder and a waiting call, it lets the second call in beside the first |
| LeaseLock.TwoHolders | server/db/locking.go:62-67 | a run from the untaken lock that ends with two calls inside, both with live leases |
| LeaseLock.SkippedExactly | server/main.go:227-242 | a job is reported as skipped if and only if the lock was busy or the job's own error says busy or nil, and nothing is reported exactly when both function and release succeed |
| LeaseLock.RanButSkipped | server/main.go:227-242 | a run from the untaken lock in which a job ran to its end and is reported as skipped |
| BomSections.NormalizeNames | server/handlers/bom_section_dto.go:54-69 | the loop yields the trimmed non-empty values, each once, in order of first occurrence |
| BomSections.NamesHold | server/handlers/bom_section_dto.go:54-69 | the list holds exactly the trimmed non-empty values |
| BomSections.NamesAgain | server/handlers/bom_section_dto.go:71-92 | writing a list of names and reading it back changes nothing any more |
| BomSections.TokenAgain | server/handlers/bom_section.go:267-273 | the token of a token is itself |
| BomEffects.SameTokenExactly | server/handlers/bom_section.go:267-273 | two texts have one token if and only if they differ only in white space and in the case of ASCII letters |
| BomEffects.TokenSpelled | server/handlers/bom_section.go:267-273 | a token is the text without white space and with upper-case ASCII letters |
| BomSections.IdentityTokens | server/handlers/bom_section.go:308-326 | the map's keys are exactly the tokens of code, name and historical names, each with a value it comes from |
| BomSections.CheckUniqueness | server/handlers/bom_section.go:328-342 | the two loops accept exactly the candidates that share no token with another row |
| BomEffects.ClashExactly | server/handlers/bom_section.go:308-342 | two sections clash if and only if a code, name or historical name of the one and of the other differ only so |
| BomSections.NormalizeConfig | server/handlers/bom_section.go:275-288 | the normalization through the pointer; its last assignment never changes anything |
| BomSections.ApplyDelta | server/handlers/bom_section.go:138-183 | whatever the order of the delta's keys, the result is each field on its own, or a rejection exactly when some value is malformed |
| BomSections.DiffReachesNext | server/handlers/bom_section.go:344-365 | applying the computed diff to the old row yields the new row if and only if the stored code was already normalized; all other fields always agree, the names although they are compared as texts |
| JsonText.TextsAgreeExactly | server/handlers/bom_section.go:361-363 | what PostgreSQL prints of one list of texts is what the server marshals of another if and only if they are the same list, of at most one text, and without the characters that only the marshaller escapes |
| BomSections.IdlePatchIsIdleExactly | server/handlers/bom_section.go:193-197 | a patch that computes the stored row itself leaves the table alone if and only if the section has a single name, without such characters; otherwise the row gets a new version |
| BomSections.RunPatchesStore | server/handlers/bom_section.go:138-206 | over every run from a valid table the stored code is normalized, so a committed patch leaves exactly the row it computed, but for its version and a default moved to it |
| BomSections.SelectedKeeps | server/handlers/bom_section.go:378-407 | when at most one row is a default, selection leaves exactly one active default, and fails exactly when no row is active |
| BomSections.SyncedKeeps | server/handlers/bom_section.go:367-407 | after writing a row, synchronizing leaves exactly one active default and changes no identity |
| BomSections.SectionTable.EnsureActiveSelection | server/handlers/bom_section.go:378-407 | the method does what the specification selects: the first active row by sort order and code, when no active default is left |
| BomSections.SectionTable.SyncDefaults | server/handlers/bom_section.go:367-376 | the method does what the specification of synchronizing says |
| BomSections.SectionTable.Create | server/handlers/bom_section.go:66-92 | the whole new table and outcome of creating a section, or no change at all; the table's rules are kept |
| BomEffects.CreateDoes | server/handlers/bom_section.go:66-92 | from every valid table: creating is rejected for exactly the stated reasons in that order and then changes nothing; otherwise it adds just the section that was sent, in normal form, and the default is the new one if it asks to be, or stays |
| BomSections.SectionTable.Patch | server/handlers/bom_section.go:127-206 | the whole new table and outcome of patching a section, with all rejections and rollbacks; the table's rules are kept |
| BomEffects.PatchDoes | server/handlers/bom_section.go:113-206 | from every valid table: a patch is rejected for exactly the stated reasons in that order and then changes nothing; otherwise each field is as sent, empty, zero or false for null, and as stored if not sent; no other section changes but for the default, which is the patched one, or stays, or goes to the first active one; and what changed has the new version |
| BomSections.SectionTable.Delete | server/handlers/bom_section.go:225-249 | the whole new table and outcome of deleting a section, with its protections and rollback; the table's rules are kept |
| BomEffects.DeleteDoes | server/handlers/bom_section.go:218-249 | from every valid table: deleting is rejected for exactly the stated reasons, an item that names the section by any of its texts among them, and otherwise removes just that section and moves its default to the first active one |
| BomSections.ApplyKeeps | server/handlers/bom_section.go:81-249 | every transaction keeps one active default and disjoint identities, leaves the table unchanged when it is rejected, and takes no name away from a section it leaves live |
| BomSections.RunsKeepValid | server/handlers/bom_section.go:81-249 | from any valid table, every sequence of transactions keeps an active section, exactly one default, that default active, and pairwise disjoint identities |
| BomSections.NamesKeepResolving | server/handlers/bom_section.go:138-197 | every name a live section has ever held resolves to exactly that section, for as long as it is live |
| BomSections.SystemSectionsStay | server/handlers/bom_section.go:230-232 | no sequence of transactions removes a system section |
| BomSections.FirstUnique | server/handlers/bom_section.go:398-400 | the order by sort order and code has no ties, so the selected default is determined |
| KnowledgeContent.DroppedExactly | server/handlers/knowledge_base_handlers.go:737-765 | a token is dropped if and only if it stands after an opening drop tag that end tags of its own name have not yet balanced |
| KnowledgeContent.FindSource | server/handlers/knowledge_base_handlers.go:816-825 | the loop finds whether some attribute counts as a safe source |
| KnowledgeContent.SanitizeAttributes | server/handlers/knowledge_base_handlers.go:827-858 | the loop yields exactly the kept attributes, in order, and the two fixed ones of a link |
| KnowledgeOutput.AttributesWritten | server/handlers/knowledge_base_handlers.go:827-858 | written of a link are exactly its safe `href`s and then the two fixed attributes, of an image exactly its safe `src`s and its `alt`s, each trimmed and in order, of other tags nothing; keys count in any case and with white space around |
| KnowledgeContent.SafeAttributesAgain | server/handlers/knowledge_base_handlers.go:827-858 | sanitizing sanitized attributes changes nothing |
| KnowledgeContent.SanitizeTokens | server/handlers/knowledge_base_handlers.go:727-784 | the loop over tag and depth emits exactly what the tokens outside dropped regions render to |
| KnowledgeOutput.OutputPieces | server/handlers/knowledge_base_handlers.go:727-810 | for every input, the output is made of what each token outside dropped regions leaves: a text itself, an allowed start tag with its written attributes and, if it closes itself and is not void, its end tag, an image only with a safe source, an end tag if it is allowed and not void |
| KnowledgeOutput.DocumentTags | server/handlers/knowledge_base_handlers.go:731-784 | the document has the tags of that output, in order |
| KnowledgeOutput.DocumentsAreSafe | server/handlers/knowledge_base_handlers.go:762-858 | every document has only allowed tags, links with safe addresses only, and images with safe sources only |
| KnowledgeContent.DocumentsAreFine | server/handlers/knowledge_base_handlers.go:762-810 | for every token stream the output holds only allowed tags with attributes in normal form, end tags of non-void tags, and joined text trimmed at both ends |
| KnowledgeContent.SettlesExactly | server/handlers/knowledge_base_handlers.go:727-784 | sanitizing an input's output again changes nothing if and only if, outside dropped regions, no carriage return of the input survives trimming in its texts or kept attributes and every kept image has a safe attribute named src itself |
| KnowledgeContent.SanitizingAgain | server/handlers/knowledge_base_handlers.go:727-784 | the same in terms of the output: no carriage return and no image without a source |
| KnowledgeContent.PlainInputsSettleAtOnce | server/handlers/knowledge_base_handlers.go:727-784 | for every input without carriage returns and without keys that merely fold to src, sanitizing is idempotent |
| KnowledgeContent.AllInputsSettleAtSecond | server/handlers/knowledge_base_handlers.go:727-784 | for every input at all, the second result is final |
| KnowledgeContent.LongSIsNotSettled | server/handlers/knowledge_base_handlers.go:786-789 | an image whose key folds to src without being it is written without a source and removed the second time |
| KnowledgeContent.ReturnIsNotSettled | server/handlers/knowledge_base_handlers.go:731-784 | a text with a carriage return between two letters is written with it and rewritten with a line feed the second time |
| KnowledgeContent.DetectMedia | server/handlers/knowledge_base_handlers.go:512-534 | the loop with its early return reports exactly whether image and video tags occur |
| KnowledgeContent.DocumentsHaveNoVideo | server/handlers/knowledge_base_handlers.go:360-395 | a built entry is never marked as having a video |
| KnowledgeText.NormalizeText | server/handlers/knowledge_base_handlers.go:494-505 | the loop keeps the words of the lines that have any, with single spaces |
| KnowledgeText.LinesOfLayout | server/handlers/knowledge_base_handlers.go:494-505 | the normalized text has exactly the lines of words it was made from, so normalizing again changes nothing and different lines give different texts |
| KnowledgeText.ExtractText | server/handlers/knowledge_base_handlers.go:441-492 | the loop collects the decoded texts outside dropped regions and a line break for each breaking tag |
| KnowledgeLayout.TextIsLaidOut | server/handlers/knowledge_base_handlers.go:441-505 | for every input, the extracted text is made of the decoded texts and the line ends of breaking tags outside dropped regions; of its lines those that hold a word are kept, in order, each as its maximal words joined by single spaces |
| KnowledgeText.LinesAtBreak | server/handlers/knowledge_base_handlers.go:494-505 | a line feed separates lines, whatever stands around it |
| KnowledgeText.ExtractionSurvivesSanitizing | server/handlers/knowledge_base_handlers.go:441-505 | when no text holds an ampersand or a carriage return, the text of the sanitized document is the text of the input without its end tags of br |
| KnowledgeText.ExtractionAgreesExactly | server/handlers/knowledge_base_handlers.go:441-505 | for such texts, extraction gives the same before and after sanitizing if and only if no end tag of br stands between two words of what is otherwise one line |
| KnowledgeText.BreakEndsMatter | server/handlers/knowledge_base_handlers.go:484-488 | removing the end tags of br keeps the lines of words exactly when each of them has no word before it on its line or none behind it, further ones disregarded |
| KnowledgeText.BreakEndJoinsLines | server/handlers/knowledge_base_handlers.go:484-488 | a concrete input with an end tag of br whose two lines become one word |
| KnowledgeSearch.SearchTokens | server/handlers/knowledge_base_handlers.go:706-725 | the first eight different non-empty words of the query, in order, or all of them when there are fewer |
| KnowledgeRanking.QueryIsCut | server/handlers/knowledge_base_handlers.go:706-713 | the words of a query are the trimmed maximal pieces between separators of its lower-cased, trimmed text, in order |
| KnowledgeSearch.Score | server/handlers/knowledge_base_handlers.go:536-567 | the score is positive if and only if every token matches, and is then the sum of the tokens' scores, three to twelve each, plus the views' bonus |
| KnowledgeRanking.MatchesExactly | server/handlers/knowledge_base_handlers.go:536-587 | a token without a space matches an entry if and only if it is in one of its texts or keywords, in an alias of its category, or in the pinyin of all these |
| KnowledgeRanking.FirstPlaceDecides | server/handlers/knowledge_base_handlers.go:543-565 | a token is worth 12 exactly for a match in the title, and otherwise 10 for a keyword, 8 for the summary, 6 for the path, 3 elsewhere and 0 for no match |
| KnowledgeRanking.HeatGrows | server/handlers/knowledge_base_handlers.go:641-656 | the bonus never falls with more views and is at most 8 |
| KnowledgeSearch.LikeIsHas | server/handlers/knowledge_base_handlers.go:676-684 | for a token without wildcards and backslash, a column is LIKE the token between wildcards if and only if it contains it |
| KnowledgeSearch.MatchInPart | server/handlers/knowledge_base_handlers.go:586 | a token that avoids the separator and occurs in the joined text occurs in one of its parts |
| KnowledgeSearch.MatchSurvivesEscaping | server/models/knowledge_base.go:15 | a match in a keyword is a match in the text of the jsonb column when the token holds no double quote, backslash or control character |
| KnowledgeSearch.WideInKeywords | server/models/knowledge_base.go:15 | a token without ASCII characters that occurs in the text of the jsonb column occurs in one of the keywords |
| KnowledgeSearch.ControlIsHidden | server/models/knowledge_base.go:15 | a token with a control character occurs in the stored text of no keywords |
| KnowledgeSearch.QuoteIsHidden | server/models/knowledge_base.go:15 | nor does one with a double quote inside, unless what stands around the quote looks like the beginning or the end of a string |
| KnowledgeSearch.FoundIsSaid | server/handlers/knowledge_base_handlers.go:536-587 | of a matching token the database finds exactly what the entry's own parts and keywords say |
| KnowledgeSearch.ScoredEntriesPass | server/handlers/knowledge_base_handlers.go:671-704 | for all tokens without a backslash, wildcards among them: a scoring entry that is lost matches each prefilterable token through the category's aliases or through a keyword whose stored text does not contain it |
| KnowledgeSearch.CandidatesExactly | server/handlers/knowledge_base_handlers.go:671-704 | for tokens without wildcards and backslash, an entry is a candidate if and only if no token is prefilterable or its own parts or the jsonb text of its keywords contain one that is |
| KnowledgeRanking.ColumnsDecide | server/handlers/knowledge_base_handlers.go:671-704 | the same in terms of the queried columns: a token of two or more characters that are not all ASCII is looked for in title, summary, content text, path, category and the text of the keywords |
| KnowledgeSearch.LostExactly | server/handlers/knowledge_base_handlers.go:671-704 | for tokens without wildcards, double quotes, backslashes and control characters, an entry that scores is lost in the prefilter if and only if the query has prefilterable tokens and none of them occurs in the entry's own parts or keywords |
| KnowledgeSearch.ClosedLoopIsMissed | server/handlers/knowledge_base_handlers.go:57-63 | a concrete entry of the category workflow that the search for one of its aliases misses |
| KnowledgeSearch.QuoteIsMissed | server/handlers/knowledge_base_handlers.go:671-704 | a concrete entry that scores in full on a keyword, without any alias, and that the prefilter misses because the keyword's double quote is stored as an escape |
| MachineValues.MachineValue | server/db/db.go:36-65 | the loop over the runes and the trimming loop compute the machine form |
| MachineValues.SlugJoinsWords | server/db/db.go:36-65 | for every text, the machine form is its runs of letters and digits, in lower case, joined by single dashes |
| MachineValues.SlugHasShape | server/db/db.go:36-65 | the result holds only lower-case letters, digits and single inner dashes |
| MachineValues.SlugAgain | server/db/db.go:36-65 | the machine form of a machine form is itself |
| MachineValues.SlugOfTrimmed | server/db/db.go:36-65 | white space at the ends makes no difference |
| OptionCleanup.KeyInjective | server/db/db.go:98 | a group key determines its category and machine value, even when the category holds colons |
| OptionCleanup.GroupOptions | server/db/db.go:92-103 | the groups are exactly the categories and non-empty machine values that occur, each with its rows in scan order |
| OptionCleanup.ItemsBelong | server/db/db.go:92-103 | a group holds exactly the rows of its category and machine value |
| OptionCleanup.ChooseCanonical | server/db/db.go:111-120 | the loop picks the survivor; its comparison of sort orders and ids never decides |
| OptionCleanup.ChosenIsFirst | server/db/db.go:111-120 | the survivor is the first row stored in machine form, or else the first row |
| OptionCleanup.Catalogue.MergeGroup | server/db/db.go:106-157 | the whole new tables after one group: the survivor in machine form, the others gone, the attribute values that named the group rewritten |
| OptionCleanup.Catalogue.Cleanup | server/db/db.go:67-160 | the whole new tables after all groups, taken in any order |
| OptionCleanup.OrderDoesNotMatter | server/db/db.go:106 | merging the same groups in two different orders gives the same tables |
| OptionCleanup.OneOptionPerValue | server/db/db.go:106-157 | afterwards each category and non-empty machine value has one option, stored in machine form |
| CleanupEffects.CleanupLeaves | server/db/db.go:67-160 | for every table: an option without a machine value stays as it was; of each category and machine value exactly the earliest option in machine form stays, or the earliest at all when none is, in machine form and otherwise as it was; an attribute value becomes its machine form if and only if it is an option of its category, trimmed or in machine form |
| OptionCleanup.ValuesFollowSurvivors | server/db/db.go:122-151 | every option's machine value keeps an option, and an attribute value that named the option now names that one |
| OptionCleanup.OtherValuesStay | server/db/db.go:136-151 | an attribute value that names no option of its category stays as it is |
| OptionCleanup.RepeatedValueFollowsExactly | server/db/db.go:134-151 | an attribute value that repeats an option exactly is rewritten with it if and only if it has no white space at its ends; otherwise it stays and names no option |
| OptionCleanup.SecondRunChangesNothing | server/db/db.go:67-160 | a second run on the cleaned tables changes neither options nor attribute values |
| TemplateMigration.FindTemplate | server/db/product_template_owned_attribute_definitions_migration.go:109-126 | the walk up the parents ends, on cyclic parents too, and computes the specified template |
| TemplateMigration.TypeResolvesToNearest | server/db/product_template_owned_attribute_definitions_migration.go:109-126 | the template found is that of the nearest type on the chain that has one, and none is found exactly when no type on the chain has one |
| MigrationEffects.AncestorSpelled | server/db/product_template_owned_attribute_definitions_migration.go:109-126 | a type follows its parent if that is not empty, and a template counts if it is not empty |
| TemplateMigration.TrackBindings | server/db/product_template_owned_attribute_definitions_migration.go:92-102 | the two maps hold each template's machine keys and its largest sort order |
| TemplateMigration.Database.AddNeeded | server/db/product_template_owned_attribute_definitions_migration.go:133-147 | the inner loop adds the bindings that one product's attributes need, and keeps the maps in step |
| TemplateMigration.Database.Backfill | server/db/product_template_owned_attribute_definitions_migration.go:69-150 | the nested loops add exactly the bindings that all products need, in order |
| TemplateMigration.SatisfiedGrows | server/db/product_template_owned_attribute_definitions_migration.go:133-147 | earlier bindings stay; each addition is for a needed attribute, under a key its template did not have, sorted after all the template has; and no needed attribute is left without a binding |
| MigrationEffects.BackfillAddsNeeded | server/db/product_template_owned_attribute_definitions_migration.go:104-150 | the backfill keeps every binding and adds, as the next of its template, one for each attribute that some product has with a value, resolved to an existing template, under a machine key other than the version level that the template did not have; and no other |
| TemplateMigration.ProductsAreBound | server/db/product_template_owned_attribute_definitions_migration.go:104-148 | every non-empty attribute other than the version level of every product is bound at its existing template, by exactly one binding where there was none |
| TemplateMigration.Database.Migrate | server/db/product_template_owned_attribute_definitions_migration.go:14-67 | either every binding is defined as specified, or the table is as it was before |
| TemplateMigration.MigrationDefinesAll | server/db/product_template_owned_attribute_definitions_migration.go:40-66 | on success no binding has definition version 0, and bindings that had a definition are untouched |
| MigrationEffects.MigrationCopies | server/db/product_template_owned_attribute_definitions_migration.go:40-64 | every binding without a definition gets names and description of the first category of its machine key, and a copy of each option row of that key, with all six fields, in table order; every other binding stays as it is |
| TemplateMigration.MigrationFailsExactly | server/db/product_template_owned_attribute_definitions_migration.go:41-50 | the migration rolls back if and only if some binding without a definition has no category of its machine key |
| TemplateMigration.SecondMigrationChangesNothing | server/db/product_template_owned_attribute_definitions_migration.go:14-67 | running the migration again succeeds and changes nothing |
| PrintBatches.ToBase36 | server/handlers/print_batch.go:378-386 | the array filled from behind holds the five lowest base-36 digits |
| PrintBatches.SerialsAreFaithful | server/handlers/print_batch.go:20 | up to 36^5-1 serials decode to their numbers and sort like them, and the next number would repeat the first serial |
| PrintBatches.PrintDesk.AtomicPrint | server/handlers/print_batch.go:310-360 | the whole new counters and batches of one transaction; a rejected or failed one leaves nothing behind |
| PrintBatches.PrintsExactly | server/handlers/print_batch.go:314-360 | a request prints if and only if its serials stay within the limit, nobody has moved the counter since it was seen and nothing fails; it then gets the serials behind the counter, the first of them as the batch text, and no other counter moves |
| PrintBatches.StepKeepsValid | server/handlers/print_batch.go:314-360 | each step of concurrent requests keeps the batches of every product a gapless tiling of the serials handed out |
| PrintBatches.SerialsArePartitioned | server/handlers/print_batch.go:314-360 | over every run every serial handed out belongs to exactly one batch of its product, no other serial to any, and all stay within the limit |
| PrintBatches.ActivationsAreSerial | server/handlers/print_batch.go:202-230 | under every interleaving the final count is that of the effective activations run in version order, each version is consumed by at most one, and the quantity is not exceeded |
| PrintBatches.CountIsCappedSum | server/handlers/print_batch.go:211-214 | over every history and for all counts, negative ones too: the final count is the least of the start with all effective counts and of the quantity with the counts behind each effect; without negative ones, the start with all counts, or the quantity if that is less |
| PrintBatches.EffectsWereAsked | server/handlers/print_batch.go:191-230 | over every history each effect is an activation that was asked for, with its count and at its version, and a row that an activation wrote last is activated if and only if its count is its quantity, and partially otherwise |
| PrintBatches.ReportedTookEffectExactly | server/handlers/print_batch.go:202-230 | over every history, an activation reported as successful took effect if and only if no other one took effect at its version |
| PrintBatches.LostActivationIsReported | server/handlers/print_batch.go:220-226 | a run in which two activations are both reported as successful although one had no effect |
| PrintBatches.ScrappedExactly | server/handlers/print_batch.go:246-258 | over every history the batch ends scrapped if and only if it was scrapped, or was so at the start, and no activation wrote the row after that |
| PrintBatches.ScrapIsOverwritten | server/handlers/print_batch.go:246-258 | a run from any start in which an activation that read the batch before a scrap removes the mark and takes effect |
| SalesSummary.Accumulate | server/handlers/customer_sales_closure_summary.go:192-231 | each account's total, canceled and status counts are the sums over its rows, status counts add up to the total, accounts exist exactly for the customers named, and totals over customers add up to all counted orders |
| SalesEffects.AccountsAreSums | server/handlers/customer_sales_closure_summary.go:192-217 | for all rows, a customer's total, canceled and status counts are sums over the customer's rows, voided orders counting as canceled, rows without a known status as UNKNOWN and negative counts as nothing |
| SalesSummary.EachHoldsNext | server/handlers/customer_sales_closure_summary.go:193-230 | one more row takes every account from the sums over the rows before it to the sums over the rows with it |
| SalesSummary.SumsIgnoreOrder | server/handlers/customer_sales_closure_summary.go:192-231 | sums over the same rows in another order are the same |
| SalesSummary.AccountsIgnoreOrder | server/handlers/customer_sales_closure_summary.go:192-231 | totals, canceled counts and status counts do not depend on the order of the rows |
| SalesSummary.LastDateIsLatest | server/handlers/customer_sales_closure_summary.go:219-230 | the last date is the text of a row with the latest time, or of some row with a text when no date can be read, and empty exactly when there is neither |
| SalesSummary.LastDateIgnoresOrder | server/handlers/customer_sales_closure_summary.go:219-230 | for all rows, the text of the last date is the same in every order if and only if all rows of the latest time, or all with a text when no date can be read, have the same text |
| SalesSummary.LastDateKeepsFirst | server/handlers/customer_sales_closure_summary.go:219-230 | two rows with different unreadable dates, or with different texts of one time, of which the first decides |
| SalesSummary.PrimaryStatus | server/handlers/customer_sales_closure_summary.go:157-174 | the loop with its running minimum finds the status with orders that is ahead of all others, and none exactly when no status has orders |
| SalesSummary.PrimaryByRank | server/handlers/customer_sales_closure_summary.go:138-174 | that status comes first in the order in progress, scheduling, pending, draft, done, canceled, anything else, codes breaking ties |
| SalesSummary.PrimaryIsUnique | server/handlers/customer_sales_closure_summary.go:157-174 | there is only one such status, so map order does not matter |
| SalesSummary.StatusCounts | server/handlers/customer_sales_closure_summary.go:115-136 | the list holds exactly the positive counts, each once, in catalogue order |
| SalesSummary.ListIsUnique | server/handlers/customer_sales_closure_summary.go:115-136 | any two such lists are the same list, so map order does not matter |
| SalesSummary.EffectiveOrders | server/handlers/customer_sales_closure_summary.go:236-239 | canceled and effective orders make up the total, and the guard against a negative number never fires |
| AuditArchive.Archiver.ProcessBatch | server/audit/archiver.go:65-96 | wherever it stops, logs are hot or saved, a prefix of the batch's lines is written and at most one torn line; the batch is deleted only after all its lines are written |
| AuditArchive.Archiver.RunArchive | server/audit/archiver.go:38-63 | the batch loop ends; wherever it stops every log is hot or saved and only saved logs older than the cutoff have left; what it wrote are lines of different old logs and at most one torn one; with enough successful operations no older log is left |
| AuditArchive.RunsLoseNothing | server/audit/archiver.go:38-96 | over any number of runs, each stopped anywhere, and any logs arriving between them, a log that was ever hot is still hot, or is saved and older than the cutoff of a run since |
| AuditArchive.ReadableAfterRun | server/audit/archiver.go:84-88 | after a run exactly those logs can be read that could be before, or that the run appended other than as the first line behind the torn end of a file |
| AuditArchive.AppendedAreReadable | server/audit/archiver.go:84-88 | each log that a run appends, the deleted ones among them, can be read if and only if it already could be, its file did not end torn at the start, or another log went to that file first |
| AuditArchive.TornRetry | server/audit/archiver.go:38-96 | two runs from a fresh table: the first tears its line, the second saves and deletes the log behind it, and no reader finds it |

## Left out

- the parsing of static colours, its OKLCH arithmetic and the number formatting of weights are parameters (`Formats`, `decimal`, `Reading`); a value that the parser does not take for a static colour or an alias is no colour of the theme.
- FallbackColors.FallbackDenotesMix: reads each printed decimal as the exact hundredth of its percentage, because binary rounding of `Number(..) / 100` is not modelled.
- ThemeResolution.RewrittenSpansKeepTheirColor: asks that channels and alpha of the span's token and of the aliases that it leads to are not displaced, because a displaced value is another text; `ThemeResolution.SurfaceReadsExactly` says exactly when that is so. Declarations of such properties in other stylesheets are not modelled.
- assumed of the parameters: URL rules judge the trimmed value, decoding changes no text without an ampersand, pinyin is ASCII, lower case keeps ASCII characters ASCII, leaves spaces, commas, square brackets, Chinese characters, double quotes, backslashes and control characters alone and makes none of the last three, the texts of static colours are no references, an empty date is not read as one, and the canceled status is a trimmed non-empty text.
- a supports gate without a block, on which the plugin throws, is not modelled; comments and at-rules without a block pass through unchanged.
- the worth of functional pseudo-classes other than `:where()` and of the nesting selector is a parameter of the specificity; importance and layers are not compared.
- CascadeOrder.LaterRuleStillWins: does not compare a rule's own fallbacks with the rest of that rule, because there the order does change; `CascadeOrder.ReadFirstExactly` says exactly where. It asks that selectors close their brackets and end in no half escape or colon, as parsed ones do.
- FallbackScopes.FallbacksStayInScope: asks that the source's own selectors are not already scoped ones, because a fallback in such a rule is limited anyway. Nested selectors are taken relative to their parent rule; a nested selector that negates its parent is not looked into.
- the cache without Redis, where the version is always `v1` and nothing is cached.
- MaterialCache.LaterRequestsSeeTheWrite: asks that resets of the version counter come while nothing lies beyond version 1 and that a request which can only assume version 1 meets no later write, because lines 74-76 of the handler break freshness otherwise; `MaterialCache.ResetBreaksExactly` and `MaterialCache.AssumingBreaksExactly` say exactly when a step breaks it.
- the list queries of materials are one atomic read of the set of committed writes; their filtering and paging are not modelled.
- expiry in LeaseLock is by a single clock shared by all processes and Redis; negative expirations are not modelled.
- upper case and lower case outside ASCII in section codes and attribute keys; tag names come already in lower case.
- section ids are given, and the ids of deleted sections are not used again; the ORM's treatment of false defaults is not modelled.
- versions of section rows are the time stamps given to each transaction.
- the tokenizer of HTML: documents are token streams, and what is written is read back as the same tokens with joined texts and line feeds for carriage returns.
- KnowledgeText.ExtractionAgreesExactly: asks for texts without ampersands and carriage returns, because texts are decoded a second time and line ends are converted when the output is read.
- stored texts are those of jsonb columns, as PostgreSQL prints them; texts with the character NUL, which such columns reject, are not excluded.
- the limit of 500 candidates, the sorting of search results and the seeding of entries.
- KnowledgeSearch.CandidatesExactly: asks that prefilterable tokens hold no wildcard of LIKE and no backslash, because LIKE treats these specially; for wildcards `KnowledgeSearch.ScoredEntriesPass` gives one direction.
- KnowledgeSearch.LostExactly: asks for tokens without double quotes, backslashes and control characters, because the text of stored keywords holds these as escapes; `KnowledgeSearch.CandidatesExactly` covers them.
- constraint violations, transaction faults and advisory locks in the option cleanup and the template migration.
- the numbering of print batches and the issue of barcodes; other writers of the serial counters.
- SavePrintBatchHandler and the inventory effects of scrapping.
- the phase of a status and the assembly and sorting of the response items of the sales summary.
- marshalling of audit logs is assumed to succeed; the clock is the cutoff given to each run.
- everything behind services, models, middleware and numbering, the cutting engine, the web client, permissions, proxies, uploads and backups.
