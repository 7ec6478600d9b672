# Verified model of the public catalogue's search, index, restore and retention

The project models four parts of the repository in Dafny and proves that each complicated
implementation agrees with the simple specification it stands for.

1. **Exact numeric search and its coarse index** (`internal/specnumeric`, `internal/publishing/spec_*`).
   Decimals are canonical texts with a number on the real line (`Decimals`, `Rationals`); unit
   conversion is exact (`Units`, `Profiles`, `UnitLaws`); a fact answers a predicate with MATCH,
   NO_MATCH or UNKNOWN (`Predicates`, `Support`). Numbers become 83-character keys whose byte order is numeric
   order (`DecimalKeys`); documents keep only envelopes of keys (`CoarseIndex`), which the index
   library stores and searches (`CoarseQuery`, `StoredIndex`) for an adapter (`SpecIndex`,
   `SpecAdapter`). `SpecSearch` shows that a search always returns the exact scan. `RawParser`
   and `Normalization` model reading values from raw text, and `Notation` and `NotationLaws` read
   back what each notation says.
2. **The public index** (`product_visibility.go`, `protocol.go`, `spec_search_backend.go`).
   `PublicTables` patches eight linked tables for one product and rebuilds them from scratch;
   `Engines` is the engine as a class whose methods are the steps between which other steps can come.
3. **The journaled restore** (`internal/recovery/restore.go`): `RestorePrepare`, `Restore`. The disk
   counts how many more effects happen before a crash, so every crash point is covered.
4. **Reservations and retention** (`internal/platform/resources.go`, `internal/recovery`):
   `Resources`, `Retention`.

## How the main results fit together

- `Support.CoversRange`, `Support.EvaluateSupport` and `Predicates.BoundIsExact` give the truth of a
  fact its meaning over a dense line; `Support.UnknownExactly` and the verdict lemmas beside it say
  which fact answers what. `DecimalKeys.KeyOrder` carries that order to the keys.
  `CoarseIndex.NoFalseNegatives` combines both: no document the oracle matches is filtered out,
  whatever the shapes, operators, units and conflicts between profiles. Conversely
  `CoarseIndex.BeyondIsRefused` shows what is filtered out.
- `SpecAdapter.BleveSpecIndex.Candidates` answers with one snapshot of the cached documents or not at
  all, whatever the library returns; `StoredIndex.HitIsAdmitted` shows that a library answering the
  query over the stored fields is never refused. With equal digests those documents are the
  index's own, so `SpecSearch.SearchSpecs` always gives the one answer of the full scan
  (`SpecSearch.AnswerIsUnique`). `Engines.Engine.Search` takes a snapshot read at any earlier time.
- `Engines.Engine.Valid` is kept by every step. It says that a healthy index represents the
  committed state (`PublicTables.Represents`), that its machine outputs and digest are its own, and
  that no refresh is lost: a healthy index with no refresh under way is due for one or the adapter
  holds its documents. Every install that yields a healthy index sets the flag.
  `Engines.Engine.Rebuilt` then gets the patched tables back by rebuilding.
- `Restore.Safe` holds at every crash point. `Restore.Disk.RestoreThroughCrashes` is roll-forward
  after any sequence of crashed runs. `RestorePrepare.PrepareRestore` says exactly when a restore can
  be prepared, and what each stage then holds. Roots that share a target cannot: they share a stage,
  and the second finds it taken. What is prepared is safe, and `RestorePrepare.RestoreBackup` follows it to the end.

## A property that fails, with its exact condition

*Inode conservation.* `Admit` adds inodes without an overflow check where the volume reports no inode
support. `Resources.TwoHalvesLeaveNone` runs two admissions that leave none counted, and
`Resources.CountStaysWrong` goes on to a wrong count after an admission whose own sum fits. Inode counts
have been right at every step iff no admission so far has wrapped (`ResourceGate.Valid`: `miscounted <==>
wrapped`), and as long as none has, an admission keeps them right iff what the volume holds and what is
asked for fit 64 bits (`ResourceGate.Admit`). Bytes are always conserved.

## Model

| member | source | states |
|---|---|---|
| Decimals.ScanIsGrammar | internal/specnumeric/decimal.go:13-19 | the recogniser accepts exactly the texts the number grammar generates |
| Decimals.AcceptedExactly | internal/specnumeric/decimal.go:23-73 | malformed texts are rejected as invalid; a well-formed text with a 32-bit exponent is accepted iff it is zero or has at most 34 significant digits and order within 24 |
| Decimals.ParseKeepsValue | internal/specnumeric/decimal.go:23-73 | the canonical text denotes the same number, reparses to itself and has at most 57 fractional places |
| Decimals.CanonicalIffParsesToItself | internal/specnumeric/decimal.go:23-73 | the canonical texts are exactly the fixed points of the parser |
| Decimals.SameTextIffSameNumber | internal/specnumeric/decimal.go:23-73 | two accepted spellings get one text iff they denote one number |
| Rationals.RatOfIsExact | internal/specnumeric/decimal.go:79-87 | the rational of a decimal is its number in lowest terms, and converts back to it |
| Rationals.FromRatSound | internal/specnumeric/decimal.go:113-128 | a decimal made from a rational is that rational, never rounded |
| Rationals.FromRatComplete | internal/specnumeric/decimal.go:113-128 | whenever some decimal is the rational, it is found |
| Rationals.DecimalFromRational | internal/specnumeric/decimal.go:113-128 | the loop that strips twos and fives ends and computes the specified conversion |
| Units.FactorIsPositive | internal/specnumeric/registry_v2.go:57-68 | every unit factor is a positive rational |
| Units.FactorIsPower | internal/specnumeric/registry_v2.go:57-68 | outside the memory table a factor is the power of ten of the unit's exponent, positive or negative; inside it the number of bits |
| UnitLaws.RegisteredUnits | internal/specnumeric/registry_v2.go:15-51 | exactly the listed units are registered, by version |
| UnitLaws.EveryUnitIsExplained | internal/specnumeric/registry_v2.go:15-51 | every registered unit is a base unit, a prefixed one, a binary multiple or a second name |
| UnitLaws.BaseWorth | internal/specnumeric/registry_v2.go:15-51 | a base unit is its own canonical unit, and worth one of it |
| UnitLaws.ConvertPrefixed | internal/specnumeric/units.go:14-39 | an amount of a prefixed unit converts as the amount moved by the prefix's power of ten does of the rest, for pico to giga |
| UnitLaws.ConvertAlias | internal/specnumeric/units.go:14-39 | Ohm, byte and count convert as Ω, B and 1 do |
| UnitLaws.ConvertBytes | internal/specnumeric/registry_v2.go:34-40 | an amount of bytes converts as eight times the bits do |
| UnitLaws.ConvertBinary | internal/specnumeric/registry_v2.go:34-40 | Ki, Mi and Gi units convert as 1024, its square and its cube of the rest do |
| UnitLaws.ConvertWithoutUnit | internal/specnumeric/units.go:29-31 | no unit means the declared one |
| UnitLaws.ConvertRefusesExactly | internal/specnumeric/units.go:32-35 | a unit is refused iff it is not registered or measures something else |
| Profiles.ValidateProfile | internal/specnumeric/profile.go:30-77 | accepts exactly the profiles with known versions, matching units and no unknown, repeated or role-forbidden entry |
| Profiles.ConvertIsExact | internal/specnumeric/units.go:22-39 | conversion yields a decimal iff it is exactly value times factor, and otherwise fails for precision |
| Profiles.ConvertIsMonotone | internal/specnumeric/units.go:22-39 | conversion keeps strict order and equality |
| Profiles.CanonicalUnitIsIdentity | internal/specnumeric/units.go:22-39 | the canonical unit converts every number to itself |
| Values.ToleranceIsExact | internal/specnumeric/value.go:297-328 | a valid tolerance states exactly nominal plus and minus its absolute or relative amount |
| Predicates.NormalizedIsWellFormed | internal/specnumeric/predicate.go:11-51 | a normalized predicate has exactly the operands its operator takes, in order and in canonical units |
| Predicates.NormalizedOperands | internal/specnumeric/predicate.go:33-51 | value, lower and upper are each the canonical number of the same operand, and everything else but the unit stays |
| Predicates.NormalizesExactly | internal/specnumeric/predicate.go:11-51 | normalization succeeds iff the profile is valid, specification and unit are named, the operator is allowed and fits some allowed shape, the operands are those it takes, each has a canonical number and a range is not reversed |
| Predicates.RestatementNormalizesAlike | internal/specnumeric/predicate.go:11-51 | restating a predicate in another unit normalizes to the same predicate |
| Predicates.ScalarIsExact | internal/specnumeric/predicate.go:98-116 | a scalar answers MATCH iff its number satisfies the query |
| Predicates.BoundIsExact | internal/specnumeric/predicate.go:184-238 | a one-sided claim is MATCH iff every allowed number satisfies the query and NO_MATCH iff none does |
| Support.SortByLower | internal/specnumeric/predicate.go:146-152 | orders the intervals by lower end, closed before open, keeping exactly the same intervals |
| Support.CoversRange | internal/specnumeric/predicate.go:145-177 | the sweep answers true iff every point of the closed range lies in the union |
| Support.EvaluateSupport | internal/specnumeric/predicate.go:118-182 | contains_point, contains_range and overlaps_range are exact over the union of intervals and points |
| Support.Evaluate | internal/specnumeric/predicate.go:70-96 | invalid, conditional or incompatible facts are UNKNOWN; all others get the verdict their shape has over the real line |
| Support.UnknownExactly | internal/specnumeric/predicate.go:54-96 | no truth without a valid unconditional fact, a predicate that normalizes and a compatible role, shape and operator; with all of them only a one-sided claim can stay unknown |
| Support.ScalarVerdict | internal/specnumeric/predicate.go:87-116 | a scalar is MATCH iff its number satisfies the query, else NO_MATCH |
| Support.ToleranceVerdict | internal/specnumeric/predicate.go:90-91 | a tolerance of a nominal value is judged by its nominal number |
| Support.ErrorVerdict | internal/specnumeric/predicate.go:78-82 | an error magnitude is judged by the maximum it claims |
| Support.BoundVerdict | internal/specnumeric/predicate.go:92-93 | a one-sided claim is MATCH iff every number it allows satisfies the query and NO_MATCH iff none does, and it says nothing in the direction its role does not have |
| Support.SupportVerdict | internal/specnumeric/predicate.go:83-86 | under a support operator a fact is MATCH iff the numbers it states contain the point, contain the range or meet it, else NO_MATCH |
| Support.VerdictIgnoresUnit | internal/specnumeric/predicate.go:70-96 | the truth does not depend on the unit a predicate is stated in |
| Support.AllOf | internal/specnumeric/predicate.go:249-259 | three-valued conjunction |
| DecimalKeys.ComplementInPlace | internal/publishing/spec_bleve_coarse.go:47-50 | rewrites every digit of the buffer to its nine's complement |
| DecimalKeys.SpecBleveDecimalKey | internal/publishing/spec_bleve_coarse.go:21-52 | computes sign and 82 digits of the number in units of 10^-57, complemented below zero, and fails only without a number |
| DecimalKeys.KeyLength | internal/publishing/spec_bleve_coarse.go:21-52 | every number has a key, of 83 characters |
| DecimalKeys.KeyOrder | internal/publishing/spec_bleve_coarse.go:21-52 | byte order of keys is numeric order for all sign combinations, and equal keys are equal numbers |
| Publications.SpecProjectionIDs | internal/publishing/spec_search.go:64-75 | computes the sorted distinct identifiers |
| Publications.ProjectionIDsAre | internal/publishing/spec_search.go:64-75 | the projected identifiers are exactly those of the valid facts |
| Publications.SpecBleveDocuments | internal/publishing/spec_bleve_coarse.go:63-99 | fails iff a publication cannot be indexed or repeats, and otherwise lists each document once in product order |
| Publications.DocumentsOfListing | internal/publishing/spec_bleve_coarse.go:63-99 | the list is that of the publications, whichever order the map yields them in |
| Publications.DocumentsUnique | internal/publishing/spec_bleve_coarse.go:63-104 | the active publications determine the digested list |
| Publications.SpecViewTruth | internal/publishing/spec_search.go:224-243 | the truth of a view for a list of predicates, by its first definition and first compatible fact |
| Publications.ViewMatchesAll | internal/publishing/spec_search.go:224-243 | a view matches iff it matches every predicate |
| Publications.PredicateTruthIs | internal/publishing/spec_search.go:224-243 | by positions: the first fact that shares version and profile with the first definition of the specification decides, and without one the truth is UNKNOWN |
| Publications.ViewTruthIs | internal/publishing/spec_search.go:224-243 | by positions: one NO_MATCH refutes the view, MATCH throughout establishes it, anything else leaves it UNKNOWN |
| Publications.SharingIsCompatible | internal/publishing/spec_search.go:208-222 | profiles compare equal iff they differ at most in the order and repetition of their lists |
| CoarseIndex.KeyOfOrder | internal/publishing/spec_bleve_coarse.go:132-186 | a number has a nonempty key, compared as the number is |
| CoarseIndex.SpecBleveEnvelopes | internal/publishing/spec_bleve_coarse.go:132-186 | the loops build the envelope of every specification and of no other |
| CoarseIndex.EnvelopeEncloses | internal/publishing/spec_bleve_coarse.go:132-186 | an envelope is broad or encloses every indexed number of every fact |
| CoarseIndex.EnvelopeIsAttained | internal/publishing/spec_bleve_coarse.go:132-186 | an envelope is no wider than its facts: both ends are keys of indexed numbers |
| CoarseIndex.GatherDefinitions | internal/publishing/spec_bleve_coarse.go:198-224 | finds the first definition of a specification and whether all of them agree |
| CoarseIndex.SpecBlevePlans | internal/publishing/spec_bleve_coarse.go:198-250 | one plan for each predicate, unbounded where definitions conflict or the predicate does not normalize |
| CoarseIndex.CompatibleNormalizeAlike | internal/publishing/spec_search.go:208-222 | profiles that compare equal normalize every predicate alike |
| CoarseIndex.MatchIsAdmitted | internal/publishing/spec_bleve_coarse.go:198-270 | an envelope enclosing a fact's numbers meets the bounds of every query the fact matches |
| CoarseIndex.SpecBleveCoarseMatch | internal/publishing/spec_bleve_coarse.go:252-270 | the early-exit loop decides the coarse predicate |
| CoarseIndex.NoFalseNegatives | internal/publishing/spec_bleve_coarse.go:132-270 | no document the exact oracle matches is filtered out |
| CoarseIndex.BeyondIsRefused | internal/publishing/spec_bleve_coarse.go:132-270 | where the documents agree about a specification, a document is refused whose facts for it are all unconditional, indexed and wholly on the wrong side of the query, or missing |
| CoarseQuery.FieldNamesDistinct | internal/publishing/spec_bleve_coarse.go:188-190 | the namespaced field names of different specifications or kinds never coincide |
| CoarseQuery.SpecBleveIndexFields | internal/publishing/spec_bleve_coarse.go:297-315 | a document's fields hold its envelopes and nothing else |
| CoarseQuery.SpecBleveQuery | internal/publishing/spec_bleve_coarse.go:272-295 | builds the clause tree of the plans |
| CoarseQuery.QueryMatchesPredicate | internal/publishing/spec_bleve_coarse.go:252-315 | the clause tree accepts a document's fields iff the coarse predicate admits the document |
| SpecIndex.SpecBleveValidateDocuments | internal/publishing/spec_bleve_coarse.go:106-125 | accepts stored documents iff rebuilding them changes nothing |
| SpecIndex.DocumentsAreCanonical | internal/publishing/spec_bleve_coarse.go:63-125 | documents of indexable publications pass that validation |
| StoredIndex.StoredDocuments | internal/publishing/spec_bleve.go:352-393 | finds every named document among the entries, by count and by identifier, iff the entries are exactly those |
| StoredIndex.Batch | internal/publishing/spec_bleve.go:469-488 | deleting the known documents and indexing the new ones leaves exactly the new ones, each with its fields |
| StoredIndex.HitIsAdmitted | internal/publishing/spec_bleve.go:524-540 | over the stored fields the query finds exactly what the coarse predicate admits |
| SpecAdapter.BleveSpecIndex.constructor | internal/publishing/spec_bleve.go:195-237 | starts with the index an earlier run left when it loads, and otherwise empty |
| SpecAdapter.BleveSpecIndex.LoadLocked | internal/publishing/spec_bleve.go:292-350 | the stored index is adopted iff its entries are exactly its named documents, with its own digest; a failed read changes nothing |
| SpecAdapter.BleveSpecIndex.Unavailable | internal/publishing/spec_bleve.go:395-403 | drops the documents, the digest and the index |
| SpecAdapter.BleveSpecIndex.ReplaceWithMode | internal/publishing/spec_bleve.go:418-496 | success leaves exactly the publications' documents, cached and stored, with their digest; any failure leaves none; it succeeds when nothing fails on an index in step |
| SpecAdapter.BleveSpecIndex.Candidates | internal/publishing/spec_bleve.go:498-561 | whatever the library returns, the answer is none or the one snapshot of the cached documents; a library that answers the query over the stored fields gets one |
| SpecAdapter.BleveSpecIndex.Close | internal/publishing/spec_bleve.go:564-583 | a closed adapter has no digest |
| SpecIndex.AdmittedAre | internal/publishing/spec_bleve.go:498-561 | the candidates are exactly the bindings of the admitted documents |
| SpecSearch.PredicateError | internal/publishing/spec_search.go:82-88 | there is no structural error iff every predicate is valid |
| SpecSearch.ValidExactly | internal/publishing/spec_search.go:247-278 | a predicate is valid iff it names specification and unit and asks for one number, or for two in order, with an operator for that |
| SpecSearch.FirstErrorIs | internal/publishing/spec_search.go:82-88 | the first invalid predicate decides: unsupported iff it names specification and unit but no known operator |
| SpecSearch.HitsAre | internal/publishing/spec_search.go:193-206 | a hit is a publication of the asked manufacturer, in the asked category or below it, on which every predicate matches |
| SpecSearch.FiltersSelect | internal/publishing/spec_search.go:193-206 | manufacturer and category select from the unfiltered matches, and nothing else |
| SpecSearch.LocaleEnabledExactly | internal/publishing/spec_search.go:101-113 | a locale is enabled iff the first listed view supports it, or has it as its one language, or it is the fallback and the view names none; none asked for means the view's default |
| SpecSearch.SpecInventoryMatches | internal/publishing/spec_search_backend.go:176-195 | accepts exactly the inventories that list every expected binding once and nothing else |
| SpecSearch.SameDigestKeepsMatches | internal/publishing/catalog_query.go:431-459 | a snapshot with the index's digest has every exact match among its candidates |
| SpecSearch.OwnSnapshotIsFresh | internal/publishing/catalog_query.go:431-459 | the snapshot of the index's own documents passes every admission check |
| SpecSearch.AdmitSpecCandidates | internal/publishing/catalog_query.go:431-459 | candidates are used iff the snapshot has the index's digest, and then no match is missing |
| SpecSearch.GatherDefinitionsInScope | internal/publishing/spec_search.go:115-136 | collects one definition for each asked specification, failing iff one is invalid or two disagree, in any order of reading |
| SpecSearch.CheckNormalize | internal/publishing/spec_search.go:137-143 | accepts iff every predicate normalizes under every definition of its specification |
| SpecSearch.Scan | internal/publishing/spec_search.go:145-170 | the loop over the candidates finds the exact matches of the whole index, in listing order |
| SpecSearch.SearchSpecs | internal/publishing/spec_search.go:77-180 | for any snapshot the adapter can have given, the result is the full exact scan, or the error that scan meets, locale included; a caller who gave up may be told so instead |
| SpecSearch.AnswerIsUnique | internal/publishing/spec_search.go:77-180 | the full scan has one answer, so neither adapter nor map order can show |
| SpecSearch.PageIs | internal/publishing/spec_search.go:171-179 | a page is the stretch of matches its number says, also beyond the end |
| SpecSearch.PagesConcatenate | internal/publishing/spec_search.go:171-179 | the pages one after another give the matches once |
| SpecSearch.FilterCatalog | internal/publishing/catalog_query.go:267-291 | the final catalogue loop selects exactly the views that satisfy every clause, in order |
| PublicTables.AssetIDs | internal/publishing/protocol.go:883-905 | each nonempty asset of a view once |
| PublicTables.RepresentationIsUnique | internal/publishing/protocol.go:219-238 | live publications and route history determine all eight tables |
| PublicTables.RoutesServe | internal/publishing/protocol.go:756-760 | each live product's route, .json and .md serve its page, its data and its text with their content types, and no other route is served |
| PublicTables.HistoryServes | internal/publishing/protocol.go:772-776 | a past route is answered by an item iff that item redirects or is gone |
| PublicTables.ListingOrder | internal/publishing/protocol.go:777-782 | the listing is by part number and then by identifier, of live products only |
| PublicTables.AssetsServe | internal/publishing/protocol.go:743-766 | an asset is served iff the site or a live product refers to it, with its own record |
| PublicTables.PatchRoutes | internal/publishing/product_visibility.go:75-108 | fails iff another publication holds one of the routes; otherwise the routes are those of the new live publications |
| PublicTables.ReleaseAssets | internal/publishing/product_visibility.go:81-87 | reference counts go down by one for each released asset, and an asset leaves with its last reference |
| PublicTables.AddAssets | internal/publishing/product_visibility.go:109-113 | reference counts go up by one for each asset and its record is listed |
| PublicTables.PatchAssets | internal/publishing/product_visibility.go:81-113 | counts and asset table are those of the new live publications |
| PublicTables.PatchProductAssets | internal/publishing/product_visibility.go:81-113 | each product with assets lists exactly its own |
| PublicTables.DropHistory | internal/publishing/product_visibility.go:89-93 | removes exactly the product's entries |
| PublicTables.AddHistory | internal/publishing/product_visibility.go:94-98 | enters the redirecting items one after another |
| PublicTables.OverlayIsLast | internal/publishing/product_visibility.go:94-98 | a route's entry is its last redirecting item, or what was there before |
| PublicTables.OverlayIs | internal/publishing/product_visibility.go:89-98 | items that redirect no route twice are all entered, and nothing else |
| PublicTables.SearchPosition | internal/publishing/product_visibility.go:121-125 | the binary search finds the only place that keeps the listing sorted |
| PublicTables.PatchViews | internal/publishing/product_visibility.go:115-129 | the patched listing is sorted and holds exactly the new live views |
| PublicTables.PatchTables | internal/publishing/product_visibility.go:54-143 | fails iff the publication is another product's, is not intact or takes a held route; otherwise represents the state after the change |
| PublicTables.InstallTables | internal/publishing/protocol.go:708-791 | represents the intact publications whose route is free, in any case but for overwritten suffix routes and the order of repeated redirects, and reports exactly the publications that are not intact |
| PublicTables.LiveListingIs | internal/publishing/protocol.go:743-766 | a listed publication is live iff it is intact and no publication live before it holds its route |
| PublicTables.DisjointListing | internal/publishing/protocol.go:743-766 | with disjoint routes every intact publication is live |
| Engines.ListingIsLive | internal/publishing/protocol.go:743-766 | the rebuild does not depend on the order of the listing |
| Engines.SpecActiveDigest | internal/publishing/spec_bleve_coarse.go:101-104 | the digest of the publications' own documents, unless one cannot be indexed |
| Engines.PatchIndex | internal/publishing/product_visibility.go:54-144 | the patched index serves the committed state and drops machine outputs and digest; none iff the publication read is another's or not intact |
| Engines.RebuildIndex | internal/publishing/protocol.go:708-791 | the rebuilt index serves the committed state, with machine outputs, and its digest or the note that it has none |
| Engines.Engine.InstallLocked | internal/publishing/protocol.go:708-791 | leaves a healthy, dirty index of the committed state, or an unhealthy one iff a read fails |
| Engines.Engine.InstallWebsite | internal/publishing/protocol.go:691-697 | a website change always rebuilds |
| Engines.Engine.ChangeCustomCSS | internal/publishing/product_visibility.go:36-43 | the custom CSS switch may move without an install and every invariant stays |
| Engines.Engine.InstallProductVisibility | internal/publishing/product_visibility.go:20-147 | commits and patches one product, rebuilding or failing where the source does; healthy exactly when the reads, the publication read and its unit allow it |
| Engines.Engine.Rebuilt | internal/publishing/product_visibility.go:54-143 | after any steps the tables of a healthy index are exactly what a rebuild gives |
| Engines.Engine.TrackPublicationDependencies | internal/publishing/product_visibility.go:153-162 | a tracked revision is pending at least at that revision |
| Engines.Engine.MachineCapture | internal/publishing/product_visibility.go:167-179 | captures the current index and pending dependencies, or fails without a healthy index |
| Engines.Engine.MachineInstall | internal/publishing/product_visibility.go:180-193 | outputs reach only the very index they were generated from |
| Engines.Engine.ConvergeDependency | internal/publishing/product_visibility.go:194-203 | a converged dependency is dropped unless a later revision was tracked meanwhile |
| Engines.Engine.MachineDone | internal/publishing/product_visibility.go:194-204 | the refresh ends once every captured dependency is converged |
| Engines.Engine.SpecSwap | internal/publishing/spec_search_backend.go:89-97 | starts a refresh iff forced or dirty, consuming the flag first |
| Engines.Engine.SpecCapture | internal/publishing/spec_search_backend.go:98-115 | captures the index with its publications and digest iff it is healthy and can be digested |
| Engines.Engine.SpecReplace | internal/publishing/spec_search_backend.go:122-134 | hands the captured publications to the adapter; every failure is remembered, and only a misread of this very replacement excuses the adapter |
| Engines.Engine.SpecFail | internal/publishing/spec_search_backend.go:153-160 | a failed refresh is due again |
| Engines.Engine.SpecFinish | internal/publishing/spec_search_backend.go:161-174 | the digest is installed only on the captured index; on any other the refresh is due again |
| Engines.Engine.RefreshSpecSearch | internal/publishing/spec_search_backend.go:89-174 | an undisturbed refresh with something to do that meets no failure ends with index and adapter at one digest |
| Engines.Engine.ReadSpecCandidates | internal/publishing/catalog_query.go:412-430 | the adapter's answer is none or a snapshot of some canonical documents |
| Engines.Engine.Search | internal/publishing/spec_search.go:77-180 | whatever steps came since the adapter was read, the answer is the exact scan of the current index, unless the caller gave up |
| Engines.Engine.FilterScope | internal/publishing/catalog_query.go:267-291 | the same for the catalogue's clause filter over listed views |
| RawParser.TakeOne | internal/specnumeric/normalize.go:150-159 | consumes a token that starts the trimmed input, or nothing |
| RawParser.ReadAtom | internal/specnumeric/normalize.go:161-188 | a successful atom is a number and strictly shortens the input |
| RawParser.ReadSegment | internal/specnumeric/normalize.go:206-250 | a successful segment strictly shortens the input |
| RawParser.Parser.Take | internal/specnumeric/normalize.go:150-159 | the loop over the tokens takes what is specified |
| RawParser.Parser.TakeAtom | internal/specnumeric/normalize.go:161-188 | the parser's atom, its remaining input and its failures are those specified |
| RawParser.Parser.TakeSegment | internal/specnumeric/normalize.go:206-250 | the same for a segment |
| RawParser.Parser.TakeSegments | internal/specnumeric/normalize.go:97-118 | the list loop ends and reads the specified segments |
| Normalization.SetSegments | internal/specnumeric/normalize.go:252-294 | the loop over the segments builds the specified payload or meets its first failure |
| Normalization.TakeTolerance | internal/specnumeric/normalize.go:296-336 | the tolerance and its interval, or why there is none |
| Normalization.TakeValue | internal/specnumeric/normalize.go:56-121 | the value the text starts with, by role, operator, segment and separator |
| Normalization.Normalize | internal/specnumeric/normalize.go:35-148 | the whole normalization as specified |
| Normalization.CandidatesAreValid | internal/specnumeric/normalize.go:122-148 | a candidate is always valid, and unconditional iff it has no reason |
| Notation.SegmentReadsBack | internal/specnumeric/normalize.go:206-250 | a written interval is read back with its ends, openness and unit |
| Notation.IntervalSetsReadBack | internal/specnumeric/normalize.go:35-148 | every valid interval set written with the canonical unit is normalized to exactly itself |
| NotationLaws.ScalarsReadBack | internal/specnumeric/normalize.go:35-148 | a number written with the canonical unit normalizes to itself |
| NotationLaws.BoundsReadBack | internal/specnumeric/normalize.go:71-89 | each of the six operators reads back as the claim of its direction and openness |
| NotationLaws.MagnitudesReadBack | internal/specnumeric/normalize.go:59-70 | an error magnitude, marked or bare, reads back as an upper claim, open only after a less-than sign |
| NotationLaws.TolerancesReadBack | internal/specnumeric/normalize.go:296-336 | absolute and relative tolerances read back with nominal, amount and exact interval |
| NotationLaws.ListsReadBack | internal/specnumeric/normalize.go:97-119 | numbers separated by commas or slashes, each with its unit, read back in order |
| NotationLaws.BareCommaIsAmbiguous | internal/specnumeric/normalize.go:102-108 | a comma right after a bare number is ambiguous, whatever follows |
| NotationLaws.MarkersAgree | internal/specnumeric/normalize.go:363-377 | a role marker before a text changes nothing when it names the configured role, and otherwise refuses the text |
| NotationLaws.ConditionsAreKept | internal/specnumeric/normalize.go:122-148 | a number before a condition keeps the whole text as its context and needs that context |
| Restore.Disk.ActivateRestoreRoot | internal/recovery/restore.go:364-390 | touches only the root's own paths; from a safe root both renames and every crash between them keep it safe |
| Restore.Disk.VerifyActivatedRestore | internal/recovery/restore.go:402-407 | accepts iff every target has its digest |
| Restore.Disk.RestoreRoot | internal/recovery/restore.go:137-171 | records a root only when its target has the digest; three effects are enough |
| Restore.Disk.ResumeRestore | internal/recovery/restore.go:122-177 | finishing means verified from any state; from a safe one it never refuses, stays safe and finishes with three effects for each incomplete root and one more |
| Restore.Disk.RestoreThroughCrashes | internal/recovery/restore.go:122-177 | after any number of crashes anywhere, one uninterrupted run verifies every root |
| Restore.SafeLosesNothing | internal/recovery/restore.go:137-170 | previous contents are at the target or set aside, a missing target has its stage, a recorded completion is true |
| RestorePrepare.RestoreOrder | internal/recovery/restore.go:252-273 | database, assets, preferred names, then the rest in byte order |
| RestorePrepare.OrderCovers | internal/recovery/restore.go:252-273 | the order holds exactly the backup's roots |
| RestorePrepare.OrderPositions | internal/recovery/restore.go:252-273 | database first, assets second, then by positions secrets, config and host-config, then byte order |
| RestorePrepare.StagePathInjective | internal/recovery/restore.go:275-278 | different targets have different stages |
| RestorePrepare.PreparedPathsDistinct | internal/recovery/restore.go:275-278 | with a fresh operation and distinct targets no live, staged or set-aside path is used twice |
| RestorePrepare.DistinctAlongAll | internal/recovery/restore.go:220-229 | when the roots of the order have different targets and are as many as the targets, all targets differ |
| RestorePrepare.StageRoots | internal/recovery/restore.go:73-96 | staging changes stage paths only, also when cut short, and completes iff no stage was there and no two roots share a target |
| RestorePrepare.PrepareRestore | internal/recovery/restore.go:58-120 | a journal is saved iff the targets are the order's, none blank, none shared, and no stage exists; the stages then hold the backup's database after the session policy, its assets and its other roots, with their digests; it is safe to resume, and before it nothing but stages has changed |
| RestorePrepare.RestoreBackup | internal/recovery/restore.go:58-177 | prepared and resumed through any crashes, every target has the digest of what the backup holds for it, the database after the session policy, and what the targets held before is at the target or set aside |
| Resources.PercentageCeilingIsExact | internal/platform/resources.go:178-182 | the ceiling of total times percent over a hundred, at most the total, without wrapping |
| Resources.AdmissionIsExact | internal/platform/resources.go:91-145 | admission succeeds iff everything reserved, the request and the larger headroom fit, over unbounded integers |
| Resources.AdmissionOnBooks | internal/platform/resources.go:138-140 | an admission keeps the byte counts exact, and exact inode counts exact iff the sum fits 64 bits |
| Resources.TwoHalvesLeaveNone | internal/platform/resources.go:130-140 | without inode support two admissions of half the range leave none counted while all are held |
| Resources.CountStaysWrong | internal/platform/resources.go:130-172 | a release and an admission whose own sum fits then leave one counted and half the range held besides |
| Resources.ResourceGate.Admit | internal/platform/resources.go:91-145 | reserved bytes stay the sum of unreleased reservations; inode counts have always been right iff none has wrapped; a refusal changes nothing |
| Resources.ResourceGate.Release | internal/platform/resources.go:147-172 | takes off exactly what is held, the first time only, and from no other volume |
| Resources.ReleaseReservations | internal/recovery/resources.go:140-144 | releasing the granted ones leaves what was held before them |
| Resources.AdmitRestoreResources | internal/recovery/resources.go:76-104 | all roots are reserved iff each fits after those before it; otherwise the gate answers as before |
| Retention.FillBuckets | internal/recovery/retention.go:120-145 | the active keys are those of the most recent count buckets |
| Retention.Consider | internal/recovery/retention.go:51-94 | one backup gets its reasons from the buckets and counters filled so far |
| Retention.BackupRetention | internal/recovery/retention.go:30-118 | exactly the backups without a reason expire, in order; a failed removal stops after those before it |
| Retention.KeptOrExpired | internal/recovery/retention.go:95-111 | a listed backup is kept or expired, never both |
| Retention.ExpiredExactly | internal/recovery/retention.go:51-111 | by positions: the first listed, future and manual backups never expire; a scheduled one expires iff it opens no recent day, week or month, one before an upgrade or restore iff its count is used up by earlier ones, one without a readable time unless it is first |
| Retention.ReasonsAre | internal/recovery/retention.go:51-97 | by positions: the reasons other than buckets, each with its exact condition, and last-good only where there is no other |
| Retention.BucketReasonsAre | internal/recovery/retention.go:66-81 | by positions: a bucket reason iff the backup is scheduled, past and the first scheduled one of a recent bucket |
| Retention.RetentionIsIdempotent | internal/recovery/retention.go:30-118 | applying it again at the same time expires nothing |
| Retention.MoreCountsKeepMore | internal/recovery/retention.go:30-118 | raising any count never expires a kept backup |

## Left out

- Concurrency below the gate: each step of `Engines.Engine` is atomic, as the gate and the refresh mutexes make it; the steps come in any order.
- `ProcessBatch` with visibility deferred, draining, publication intents, repairs and the worker loop.
- The SQLite candidate backend and all SQL; the engine's repository is an abstract committed state whose publications are keyed, whose routes are disjoint and whose redirects are unique (`Engines.ValidRepository`); the tables themselves are specified without that. Units and asset records are immutable, as the source assumes.
- SHA-256 is taken as injective on document lists (`Publications.Digest`), and JSON encoding as the identity on what it encodes; restore uses an arbitrary digest function, since its tree digest is not injective.
- The index library: what a read or a search returns is arbitrary (`SpecAdapter.Load`, `SpecAdapter.SearchIO`); owner files, quarantine directories and byte estimates are not modelled.
- Engines.Engine.SpecReplace: that the adapter then holds the index's documents assumes the library does not read back another consistent index; the ghost field `misread` says whether the last replacement did, and the search results do not depend on it.
- The asset records of a view are taken in the order of its identifiers, as the repository is asked for them.
- Presentation: localized labels, options, columns and keyword ranking; the rows of a search are the index's views before their labels are localized.
- Engines.Engine.FilterScope: choosing the scope, its locale and the checks of the clauses before the final loop are not modelled.
- SpecSearch.FilterCatalog: the text conditions are an arbitrary predicate on a view, and the scope list is given; the checks of the clauses before the loop are not modelled.
- Compared profiles have their lists sorted and compacted in the source; the model compares them as sets (`Publications.Normalized`).
- SpecSearch.SpecInventoryMatches: the sorted identifier lists are compared as multisets, the expected one being sorted.
- Sorting by the standard library is an insertion sort here; only order and contents matter.
- Decimals.AcceptedExactly: the limit of 256 counts characters, so a text with non-ASCII characters just under it is called malformed where the source calls it too long; both are refused.
- Normalization.Normalize: which characters are letters is a parameter; of case folding only what can meet an ASCII word is modelled, which is all the markers and suffixes are compared with.
- Notation.IntervalSetsReadBack, and every other read-back: needs the units' letters to be letters, and blanks, commas, slashes, brackets, `±` and `%` not to be (`Notation.LetterTable`).
- NotationLaws.TolerancesReadBack: an absolute tolerance of a profile in percent is not covered, because a percent sign after the amount makes it relative.
- The SQLite integrity and asset checks inside restore verification, file modes, symbolic links, directory syncs and partial journal writes; a rename and a journal save are atomic and durable. An error after a completed effect is a crash at that point.
- Directories nested in each other: paths are independent keys of a map.
- RestorePrepare.PrepareRestore: asks that no path bears the mark of the new random operation, and takes target paths as clean; kinds and the control directory's containment are not checked.
- `restoreRootResources`, backup size estimates, `Inspect` and trimming of volume names would only add easy members.
- Retention takes day, week and month keys as functions of the backup or of the step back from now; reasons are sets at the backup's position in the listing, where the source keeps sorted lists under its identifier.
- Retention's listing is sorted by timestamp text, so "first listed" is the newest only where text order is time order.
- HTTP serving, rendering, localization catalogues, administration, mail and host configuration.
