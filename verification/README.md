# Hyperlit core logic, modelled and proved in Dafny

Hyperlit stores books as rows of nodes, footnotes and references, resolves the citations in them, narrates them, bills
for that, and lets readers go back to earlier versions. This project models the parts of it that carry state or
arithmetic, and proves what they promise for all inputs and all runs.

- **Short forms** (`ShortForms`, `ShortFormMeaning`, `ShortFormScan`): which full citation a "Hart, Justice" or an
  "ibid" in a footnote stands for, as a definition over the footnotes in document order and read off the entries before
  it; the loops that rewrite metadata in place refine it.
- **Citation scan** (`ScanPool`, `ScanJob`, `ScanCounts`, `ScanConservation`, `ScanOutcomes`): the resolution waves
  drain a pool while keeping four counters and a list of results; when the counters add up, and what each result says.
- **Credits** (`Billing`, `BillingTerms`): charges, holds, releases and credits as locked transactions over accounts and
  a ledger.
- **Audiobooks** (`AudioStore`, `AudioRun`, `AudioChain`, `AudioOutcomes`, `AudioBilling`, `AudioInterleaving`,
  `SentenceSplit`): narration files and rows, runs cut into slices, what a chain of runs stores and costs, on its own
  and among other transactions, and how text is split for the speech provider.
- **Import** (`ImportRetry`, `ImportSafety`, `ImportContents`, `KeyedRows`, `CopyText`, `CopyCells`, `Renumber`,
  `RenumberedLines`): delete-then-insert saves under retry, the COPY encoder, the streaming renumberer.
- **Versions** (`VersionHistory`, `VersionTimeline`, `VibePin`, `LikePattern`): rows with periods, the archiving trigger,
  point-in-time restore, what the tables show at any instant, and the pinned restore point of vibe conversions.
- **Headings** (`Headings`, `HeadingNesting`): the heading normaliser, written three times in the repository, and its
  analyser.
- **Identifiers** (`SubBookIds`, `ShelfSlug`, `Decimal`): sub-book ids and unique shelf slugs.

Loops and objects that change state are methods and classes here, proved against functions of the old state; the
lemmas are about those functions. Answers of language models, search services, speech providers, and of clocks and
id generators are parameters that may be anything. Money is counted in units of 1e-4, costs are reals.

`dafny verify dfyconfig.toml` checks everything.

## Where code and comments differ

The model follows the code.

- `app/Services/BillingService.php`, doc comment of `reserveCredits`: a hold that would go negative is said to be rolled
  back; the code only asks for a positive balance before it (`Billing.HoldMayOverdraw`, `Billing.OverdrawsIff`).
- `app/Jobs/GenerateBookAudioJob.php:194-196`: "each run bills its own work", and a book split across runs "costs exactly
  the same". Each charge is rounded (`AudioBilling.SplitCostsDiffer`), and a run ended by an exception is not charged for
  what it has stored (`AudioBilling.DiedUnpaid`, exactly when: `AudioBilling.NothingUnpaidIff`). Exactly when a chain costs
  the same as one run over all it narrated: `AudioBilling.ChainCostsTheSameIff`.
- `app/Jobs/CitationScanBibliographyJob.php:1656-1657`: short titles are matched by "prefix" and an ibid refers to the
  "immediately preceding citation footnote"; the code also accepts a short title inside a title, which gives other links
  (`ShortForms.MatchesByPrefixIff`, `ShortForms.PrefixLinkIff`, `ShortForms.PrefixLinkLost`), and an ibid passes over
  legislation, case law and pointers (`ShortForms.IbidIsImmediateIff`, `ShortForms.IbidPassesOverLegislation`).
- `app/Jobs/CitationScanBibliographyJob.php:1769-1776`: links are meant to name the full citation; in a scan over
  metadata that is already substituted they may name a short form (`ShortForms.LinkNamesOriginalIff`,
  `ShortForms.RescanMayLinkToAShortForm`).
- `app/Jobs/CitationScanBibliographyJob.php:1991`: an unresolved antecedent is said to leave the short form unresolved;
  the value `unknown` a scan writes for it is non-empty and is copied like a resolution (`ShortFormScan.UnknownIsInherited`,
  `ShortFormScan.LeftAloneIff`).
- `app/Jobs/ProcessDocumentImportJob.php:527-529`: null sequences are stripped before a copy, in one pass, which can put
  one together (`CopyText.SanitizedLeavesIff`, `CopyText.NestedLeavesOne`).
- The import promises that a re-run overwrites cleanly; after footnote rows are lost while their sub-book rows remain,
  one more attempt fails first (`ImportSafety.UninterruptedCompletesIff`, `ImportSafety.SecondAttemptCompletes`).
- The import's `LIKE` pattern is not escaped, unlike the restorer's, and generated book ids contain an underscore
  (`LikePattern.UnescapedIsPrefixIff`).
- A failed vibe apply overwrites the review marker of an earlier successful one (`VibePin.FailedApplyHidesRevert`,
  `VibePin.RevertOfferedIff`).
- The counters of a footnote scan with sub-citations can exceed the total (`ScanConservation.ScanConservesIff`).
- The heading analyser can report fewer gaps than the normaliser repairs (`Headings.CountsAgreeIff`,
  `Headings.AnalyserMayReportFewer`).

## Model

| member | source | states |
|---|---|---|
| `ShortForms.LastRelevant` | app/Jobs/CitationScanBibliographyJob.php:1724-1737 | an ibid looks back to the nearest entry that is a full citation, a short form or an ibid; every entry between is something else |
| `ShortForms.ShortFormLinkedIff` | app/Jobs/CitationScanBibliographyJob.php:1742-1766 | a short form is linked without the language model exactly when the matching full citations before it have one normalised title between them, and then to the last of them |
| `ShortForms.CandidatesCountTitles` | app/Jobs/CitationScanBibliographyJob.php:1747-1759 | the candidates are one full citation for each title among the matching ones, neither more nor fewer |
| `ShortForms.NearestComesFirst` | app/Jobs/CitationScanBibliographyJob.php:1748 | candidate number one is the nearest matching full citation |
| `ShortFormMeaning.ShortFormMeans` | app/Jobs/CitationScanBibliographyJob.php:1741-1807 | a short form, read off the entries before it: with one possible title it means the last entry of that title; with several, and the answer n, the last entry of the n-th title from its end; otherwise nothing. The link has that entry's own id and metadata |
| `ShortFormMeaning.IbidMeans` | app/Jobs/CitationScanBibliographyJob.php:1721-1739 | an ibid means what the last entry of the eight citable types, short form or ibid before it stands for: the work a citation is marked as a short form of, or the citation itself; what another short form or ibid means before any answer |
| `ShortFormMeaning.MeansNothing` | app/Jobs/CitationScanBibliographyJob.php:1716-1784 | an ibid with none of these before it, and every entry that is neither a short form nor an ibid, is linked to nothing |
| `ShortForms.IbidIsImmediateIff` | app/Jobs/CitationScanBibliographyJob.php:1721-1739 | an ibid stands for what the footnote right before it stands for, exactly when that one is a citation, a short form or an ibid, or there is nothing behind it to follow either |
| `ShortForms.IbidPassesOverLegislation` | app/Jobs/CitationScanBibliographyJob.php:1721-1739 | an ibid after a statute stands for the book cited before the statute |
| `ShortForms.MatchesByPrefixIff` | app/Jobs/CitationScanBibliographyJob.php:1749-1753 | a full citation matches in the code if it matches by the prefix rule of the comment, and besides exactly if the short title lies inside its title without beginning it |
| `ShortForms.PrefixLinkIff` | app/Jobs/CitationScanBibliographyJob.php:1742-1766 | a short form is linked, or left unlinked, as the prefix rule would have it, exactly when the titles that match and the titles that match by prefix are both one, or neither is |
| `ShortForms.PrefixLinkLost` | app/Jobs/CitationScanBibliographyJob.php:1742-1766 | "Justice" and "A Theory of Justice", both by Hart: the prefix rule links "Hart, Justice" to the first, the code leaves it to the language model |
| `ShortForms.InsideATitle` | app/Jobs/CitationScanBibliographyJob.php:1746-1759 | such a title: "Justice" in "A Theory of Justice" |
| `ShortForms.IbidAfterAmbiguity` | app/Jobs/CitationScanBibliographyJob.php:1733-1737 | an ibid after a short form that only the language model can decide stays unlinked, whatever the answer |
| `ShortForms.FinalLinkSource` | app/Jobs/CitationScanBibliographyJob.php:1720-1807 | every link, from any entries and any answers, takes over the metadata of a strictly earlier entry that was a full citation to begin with |
| `ShortForms.FreshLinksNameTheirSource` | app/Jobs/CitationScanBibliographyJob.php:1729-1763 | on fresh metadata the link also names that very entry |
| `ShortForms.LinksPointBack` | app/Jobs/CitationScanBibliographyJob.php:1667-1842 | on metadata that is fresh, or holds only substitutions naming earlier full citations: every link in the map goes from a short form or ibid to a full citation strictly before it, and no antecedent is itself linked: links have depth one |
| `ShortForms.ScanKeepsGrounded` | app/Jobs/CitationScanBibliographyJob.php:1808-1825 | what a scan writes back still only names earlier full citations, so the previous guarantee holds in every later scan over the persisted metadata |
| `ShortForms.LinkNamesOriginalIff` | app/Jobs/CitationScanBibliographyJob.php:1716-1807 | over metadata that is fresh or names originals only: a link names an original full citation exactly when the metadata it takes over has no short_form_of of its own, or one that is the link itself |
| `ShortForms.ShortFormNamesOriginalIff` | app/Jobs/CitationScanBibliographyJob.php:1741-1767 | a short form with one matching title is linked to an original exactly when the last matching full citation is not an earlier scan's substitution |
| `ShortForms.IbidNamesOriginal` | app/Jobs/CitationScanBibliographyJob.php:1721-1739 | an ibid after a full citation, substituted or not, is always linked to an original |
| `ShortForms.ScanKeepsRootedIff` | app/Jobs/CitationScanBibliographyJob.php:1808-1825 | the metadata a scan writes back names originals only, exactly when all its links did |
| `ShortForms.FirstScanNamesOriginals` | app/Jobs/CitationScanBibliographyJob.php:1667-1842 | a first scan links to originals only, and writes back metadata that names originals only |
| `ShortForms.RescanMayLinkToAShortForm` | app/Jobs/CitationScanBibliographyJob.php:1769-1776 | a fresh book with one citation and one short form, scanned, and then a new short form: the second scan links it to the older short form |
| `ShortFormScan.FindCandidates` | app/Jobs/CitationScanBibliographyJob.php:1742-1759 | the nearest-first walk with its set of seen titles finds exactly the specified candidates |
| `ShortFormScan.FollowIbid` | app/Jobs/CitationScanBibliographyJob.php:1721-1739 | the walk back over metadata that is already substituted finds what the definition over the original entries says |
| `ShortFormScan.FollowShortForm` | app/Jobs/CitationScanBibliographyJob.php:1741-1767 | one candidate is linked, several are put aside, none leaves the short form unlinked |
| `ShortFormScan.LinkInOrder` | app/Jobs/CitationScanBibliographyJob.php:1716-1784 | the in-place pass refines the definition: metadata, map, and list of ambiguous short forms, for all entries |
| `ShortFormScan.ApplyChoices` | app/Jobs/CitationScanBibliographyJob.php:1798-1806 | after the answers, metadata and map are those of the final links; numbers out of range and unknown ids change nothing |
| `ShortFormScan.KindAfterLinking` | app/Jobs/CitationScanBibliographyJob.php:1728-1737 | substitution turns a linked entry into a full citation and leaves every other entry what it was, which is why the ibid walk may test current types |
| `ShortFormScan.CitationScan.MatchShortFormAntecedents` | app/Jobs/CitationScanBibliographyJob.php:1667-1842 | returns the specified map, rewrites exactly the linked rows, and drops exactly the short forms and ibids from resolution |
| `ShortFormScan.CitationScan.Persist` | app/Jobs/CitationScanBibliographyJob.php:1808-1825 | the short rows found by looking at current metadata are the originally short ones |
| `ShortFormScan.DroppingIsLocal` | app/Jobs/CitationScanBibliographyJob.php:1826-1831 | dropping takes out exactly the dropped references and leaves the others in their order, as often as they were there |
| `ShortFormScan.RemainingMembers` | app/Jobs/CitationScanBibliographyJob.php:1826-1831 | what remains is all other references and none of the dropped |
| `ShortFormScan.ShortFormsAreDropped` | app/Jobs/CitationScanBibliographyJob.php:1808-1831 | what remains to be resolved is exactly the references no entry of type short-form or ibid has |
| `ShortFormScan.WrittenBackAt` | app/Jobs/CitationScanBibliographyJob.php:1817-1825 | each linked row gets its antecedent's metadata with the antecedent's id as short_form_of, and the method short_form_antecedent; its source, source id and score stay, and so does every unlinked row |
| `ShortFormScan.CitationScan.InheritShortFormResolutions` | app/Jobs/CitationScanBibliographyJob.php:1984-2003 | the updates one after the other, each reading what the earlier ones left |
| `ShortFormScan.OrderDoesNotMatter` | app/Jobs/CitationScanBibliographyJob.php:1986-2002 | with links of depth one, any order of the updates gives the result of doing them all at once |
| `ShortFormScan.LinkedCarryTheirAntecedents` | app/Jobs/CitationScanBibliographyJob.php:1979-2003 | column by column, after inheritance in any order: a linked footnote has its antecedent's source, source id and score, or 1.0 without one, the method short_form_antecedent and its own metadata; it is as before if the antecedent has no row or its source is null, empty or "0"; antecedents and all other rows are as before |
| `ShortFormScan.LeftAloneIff` | app/Jobs/CitationScanBibliographyJob.php:1990-1992 | a linked footnote is left as it was exactly when its antecedent's source is null, empty or "0", or method, source, source id and score are what it would get |
| `ShortFormScan.UnknownIsInherited` | app/Jobs/CitationScanBibliographyJob.php:1990-2002 | an antecedent resolved to `unknown` passes that on |
| `ScanJob.CitationScanBibliographyJob.Handle` | app/Jobs/CitationScanBibliographyJob.php:168-1452 | the whole scan: it completes, or dies in the re-scoring, with exactly the specified pool, counters and results |
| `ScanJob.CitationScanBibliographyJob.SeparateEntries` | app/Jobs/CitationScanBibliographyJob.php:168-180 | linked entries get their result and counter at once, the others are left to resolve |
| `ScanJob.CitationScanBibliographyJob.BuildPool` | app/Jobs/CitationScanBibliographyJob.php:399-465 | the pool holds every reference and, after them, its sub-citations with a title |
| `ScanJob.CitationScanBibliographyJob.RunBatch` | app/Jobs/CitationScanBibliographyJob.php:511-535 | answers by reference; one whose reference has left the pool has no effect |
| `ScanJob.CitationScanBibliographyJob.RunSnapshot` | app/Jobs/CitationScanBibliographyJob.php:568-604 | the walk over the pool as it was when the wave began |
| `ScanJob.CitationScanBibliographyJob.RunRescore` | app/Jobs/CitationScanBibliographyJob.php:998-1069 | the same walk with a second look into the pool, which ends the job when the entry is gone |
| `ScanJob.CitationScanBibliographyJob.SettleEntry` | app/Jobs/CitationScanBibliographyJob.php:515-534 | a match adds one result and one to one counter and takes the family out of the pool |
| `ScanJob.CitationScanBibliographyJob.RemoveRelatedPoolEntries` | app/Jobs/CitationScanBibliographyJob.php:2221-2257 | what leaves the pool when a reference or sub-citation resolves |
| `ScanJob.CitationScanBibliographyJob.MarkRemaining` | app/Jobs/CitationScanBibliographyJob.php:1407-1452 | the rest becomes no_match, except ids containing the mark of a sub-citation |
| `ScanCounts.RemovalTakesTheFamily` | app/Jobs/CitationScanBibliographyJob.php:2239-2256 | a removal takes out a reference with all its sub-citations, or nothing if they have gone already |
| `ScanCounts.SettleDrains` | app/Jobs/CitationScanBibliographyJob.php:518-534 | every match keeps the counters equal to the results by kind and the pool equal to the families not yet settled; it settles a family twice exactly when that family had gone |
| `ScanCounts.BatchDrains` | app/Jobs/CitationScanBibliographyJob.php:493-560 | a batch wave settles no family twice, whatever its answers |
| `ScanCounts.SnapshotDrains` | app/Jobs/CitationScanBibliographyJob.php:567-604 | a snapshot wave settles a family twice exactly when two of its matches are of one family |
| `ScanCounts.RescoreIsSnapshotOrDies` | app/Jobs/CitationScanBibliographyJob.php:998-1069 | the re-scoring walk dies exactly when two of its matches are of one family |
| `ScanCounts.WavesDrain` | app/Jobs/CitationScanBibliographyJob.php:479-1405 | over any series of waves: no family is settled twice and the job lives exactly when each walk matches each family at most once |
| `ScanCounts.NoMatchesAreTheRest` | app/Jobs/CitationScanBibliographyJob.php:1407-1452 | the no_match results are the families not settled, each once, less the references whose own id contains the mark of a sub-citation |
| `ScanConservation.PoolIsWellFormed` | app/Jobs/CitationScanBibliographyJob.php:441-465 | generated sub-citation ids are distinct from each other, every sub-citation's reference is in the pool, and the families are the references |
| `ScanConservation.UnmarkedDoNotCollide` | app/Jobs/CitationScanBibliographyJob.php:441-465 | no id without the mark is a generated one, so ids that have none cannot collide |
| `ScanConservation.ScanConservesIff` | app/Jobs/CitationScanBibliographyJob.php:168-1452 | with sub-citations: the scan completes and already linked + newly resolved + enriched + failed, with the references skipped for the mark in their id, equals the total exactly when each walk over the pool matches each family at most once; then each other open reference has exactly one result |
| `ScanConservation.SubCitationsMayCountTwice` | app/Jobs/CitationScanBibliographyJob.php:570-602 | one reference and its sub-citation, both matched by one walk, count as two newly resolved |
| `ScanConservation.ScanWithoutSubsConserves` | app/Jobs/CitationScanBibliographyJob.php:168-1452 | without sub-citations, for arbitrary answers: the scan completes, nothing is settled twice, and the sum falls short of the total by exactly the unresolved ids that contain the mark of a sub-citation |
| `ScanConservation.BibliographyScanConserves` | app/Jobs/CitationScanBibliographyJob.php:168-1452 | a bibliography scan: the counters add up to the entries exactly when no reference with the mark in its id is left unresolved, and each open reference that is not skipped has exactly one result |
| `ScanOutcomes.ResultsAreExplained` | app/Jobs/CitationScanBibliographyJob.php:168-1452 | every result of a completed scan, whatever the waves answered: already_linked is of a reference with a source id and a source; newly_resolved of an open one without a source id, and enriched of an open one with, each on a match; error on a failed stub; no_match of an open reference for which no wave had either |
| `ScanOutcomes.AlreadyLinkedIff` | app/Jobs/CitationScanBibliographyJob.php:168-180 | a reference has the result already_linked exactly when it came with a source id and a source that is not null, empty or "0" |
| `ScanOutcomes.PoolMembers` | app/Jobs/CitationScanBibliographyJob.php:399-465 | the pool has exactly the references to resolve and, with the reference's id, `::sub` and their number, the titled sub-citations, linked or not as the reference is |
| `ScanOutcomes.PoolInOrder` | app/Jobs/CitationScanBibliographyJob.php:399-465 | at which position each of them stands: references first, sub-citations behind by reference and number |
| `ScanOutcomes.FirstMatchDecides` | app/Jobs/CitationScanBibliographyJob.php:511-535 | the first match of a batch for a family still in the pool makes its result, whatever the batch says of it later |
| `Billing.BillingService.Charge` | app/Services/BillingService.php:33-64 | new tables of a charge: rounded cost at the tier found under the lock, no debit at the premium tier, one debit row with the balance after it |
| `Billing.BillingService.ReserveCredits` | app/Services/BillingService.php:205-255 | a hold is granted exactly under the tests the code makes, and leaves more than minus itself |
| `Billing.BillingService.ReleaseReservation` | app/Services/BillingService.php:271-308 | a hold of that user and id is given back and its row deleted, or nothing changes |
| `Billing.BillingService.AddCredits` | app/Services/BillingService.php:313-342 | any amount: the stored sum is rounded to the column, and one credit row has the amount rounded on its own |
| `BillingTerms.ChargeIs` | app/Services/BillingService.php:33-64 | a charge of an existing user under a new id, in all columns: the nearest 1e-4 of the cost at 1, 1.5, 2 or 5 times by tier, an unknown tier as 1.5; at the premium tier a row but no debit; otherwise nothing |
| `BillingTerms.HoldIs` | app/Services/BillingService.php:205-255 | a hold is placed, with its row, exactly for a user not seen as premium, for a positive cost, on a positive balance, under a new id; otherwise nothing changes |
| `BillingTerms.ReleaseIs` | app/Services/BillingService.php:271-308 | a release acts exactly on a debit row of that user marked as a reservation, by an id neither empty nor "0" |
| `BillingTerms.CreditIs` | app/Services/BillingService.php:313-342 | a top-up in all columns |
| `BillingTerms.ADollarAtEachTier` | config/services.php:121-127 | a dollar of raw cost debits 15000, 20000 or 50000 units at the budget, solidarity and capitalist tiers, 15000 at an unknown one, and at premium a row of 10000 and no debit |
| `BillingTerms.RunChargeIs` | app/Jobs/GenerateBookAudioJob.php:429-459 | a run's charge in all columns: the nearest units of its characters' price per million at the user's tier, as one row of category tts |
| `Billing.StepKeepsBooksIff` | app/Services/BillingService.php:33-342 | each transaction keeps credits equal to the credit rows and debits equal to the live debit rows that are holds or were charged at a non-premium tier, exactly unless it is a top-up whose stored sum is rounded apart from its row |
| `Billing.AddsUpIff` | app/Services/BillingService.php:325-336 | which needs an amount half way between two units and a sum on the other side of zero |
| `Billing.RoundedApart` | app/Services/BillingService.php:325-336 | such a top-up: half a unit less than one unit |
| `Billing.RunKeepsBooks` | app/Services/BillingService.php:33-342 | the books agree after every interleaving of charges, holds, releases, credits and tier changes without such a top-up |
| `Billing.TopUpsAreBooked` | app/Http/Controllers/BillingController.php:70-97 | from accounts without negative credits, and with the positive amounts the endpoint accepts, there is none in any run |
| `Billing.ReleaseIsIdempotent` | app/Services/BillingService.php:263-288 | a second release, or one of a bogus id, is a no-op |
| `Billing.RowsLeaveOnlyByRelease` | app/Services/BillingService.php:263-294 | a row leaves the ledger exactly when its owner releases it as a hold by its id; no row is ever altered |
| `Billing.OverdrawsIff` | app/Services/BillingService.php:220-231 | a granted hold overdraws exactly when it exceeds the balance before it, and never below minus itself |
| `Billing.HoldMayOverdraw` | app/Services/BillingService.php:220-231 | the roll-back the doc comment promises does not happen: a hold from a positive balance of one unit leaves -14999 |
| `Billing.ReleaseCancelsItsHold` | app/Services/BillingService.php:205-296 | whatever comes between, other reservations and releases of the same user included, except this release itself: the hold's row is there unchanged, and the release takes exactly its amount off the debits and exactly its row out of the ledger |
| `Billing.HoldIsTransparent` | app/Services/BillingService.php:205-296 | reserve, anything in between, release: every account is what it would be without the hold, as is the ledger up to balance snapshots, as long as each reservation in between, the owner's too, is granted with the hold exactly when it is without |
| `Billing.RefusedForTheHoldIff` | app/Services/BillingService.php:220-231 | a reservation depends on a hold in place exactly when it is the same user's, would be granted without the hold, and the hold takes all of the balance |
| `Billing.StepKeepsAhead` | app/Services/BillingService.php:33-342 | two states that differ by some ledger rows and their debits still differ by exactly these after any transaction that leaves those rows alone, the owner's other reservations included where they are granted either way |
| `Billing.SeparateRounding` | app/Services/BillingService.php:46 | k separately rounded charges differ from the exact sum by at most k / 2 units |
| `Billing.SplitCostBound` | app/Services/BillingService.php:40-47 | the same characters charged in k runs instead of one move the total by at most (k + 1) / 2 units of 1e-4 |
| `Billing.SplitCostsSameIff` | app/Services/BillingService.php:40-47 | runs cost exactly what one run over their characters would, exactly when their rounding errors add up to what one rounding can be off by |
| `Billing.CostsSameIff` | app/Services/BillingService.php:40-47 | the same with so many characters no run was charged for: their price comes off the errors |
| `AudioStore.BookAudioStore.PutNodeAudio` | app/Services/BookAudioStore.php:78-122 | the file, the row and the deletion of a superseded file |
| `AudioStore.BookAudioStore.PruneToNodeIds` | app/Services/BookAudioStore.php:163-182 | exactly the rows of other nodes and their files go |
| `AudioStore.SameFileIff` | app/Services/BookAudioStore.php:192-199 | two stores write the same file exactly when their sanitised node ids and the first eight hash characters agree |
| `AudioStore.FilenameIsSafe` | app/Services/BookAudioStore.php:65-71 | every generated name passes the traversal check |
| `AudioStore.StepsAgreeIff` | app/Services/BookAudioStore.php:78-122 | wherever a store is cut off, every row's file exists, except after the last step exactly when the superseded file is another node's too |
| `AudioStore.OthersUntouchedIff` | app/Services/BookAudioStore.php:78-122 | no other node's row or file changes, exactly when the store neither overwrites nor deletes a file another node's row names |
| `AudioStore.CutOffAgreesIff` | app/Services/BookAudioStore.php:78-122 | every row's file exists at every intermediate point of a series of stores, exactly when no store of the series collides with another node: same sanitised id, same start of the old hash, a new hash |
| `AudioStore.SafeIdsAgreeThroughout` | app/Services/BookAudioStore.php:78-122 | so it does for any stores among ids of letters, digits, underscores and hyphens |
| `AudioStore.SafeIdsAreSeparate` | app/Services/BookAudioStore.php:192-199 | such ids never get the same file name |
| `AudioStore.GeneratedIdIsSafeIff` | app/Services/DocumentImport/FileHelpers.php:66-73 | node ids are generated from such characters exactly when the book's id is |
| `AudioStore.AlikeIdsCollide` | app/Services/BookAudioStore.php:117-119 | of any two ids that sanitise alike: stored with the same text, and then one of them with a new one, the other's file is gone |
| `AudioStore.DottedIdCollides` | app/Services/BookAudioStore.php:192-199 | such a pair: `a.b` and `ab` |
| `AudioStore.PruneAgreesIff` | app/Services/BookAudioStore.php:163-182 | a completed prune leaves exactly the rows to keep, and their files exactly unless one of them shares a pruned node's file |
| `AudioStore.SafeIdsPrune` | app/Services/BookAudioStore.php:163-182 | which it cannot among ids of letters, digits, underscores and hyphens |
| `AudioStore.HalfPrunedAgreesIff` | app/Services/BookAudioStore.php:170-182 | a prune cut off between files and rows breaks the agreement as soon as there was anything to prune |
| `AudioOutcomes.PruneDeletesIff` | app/Services/BookAudioStore.php:163-182 | a file is deleted exactly if the row of a node not to be kept names it; the others keep their bytes |
| `AudioOutcomes.NameOfDotted` | app/Services/BookAudioStore.php:192-199 | the file of node `a.b` under a hash of zeros is `ab-00000000.mp3` |
| `AudioRun.GenerateBookAudioJob.Handle` | app/Jobs/GenerateBookAudioJob.php:77-89 | one run: status, characters, store, and the tables after its charge and the release of its hold, which happens whatever the outcome, an exception in the middle of a batch included |
| `AudioRun.GenerateBookAudioJob.Generate` | app/Jobs/GenerateBookAudioJob.php:92-220 | refusals touch nothing; otherwise prune, list, narrate, charge; an exception skips the charge for what is already stored |
| `AudioRun.GenerateBookAudioJob.NarrateBatches` | app/Jobs/GenerateBookAudioJob.php:139-192 | what is stored, counted and failed before the loop ends, is cancelled or runs out of time |
| `AudioRun.GenerateBookAudioJob.ListPending` | app/Jobs/GenerateBookAudioJob.php:118-126 | exactly the nodes without a row of their current hash, in reading order |
| `AudioRun.GenerateBookAudioJob.DropAlreadyNarrated` | app/Jobs/GenerateBookAudioJob.php:263-274 | what is left of a batch is what still has no row of its hash |
| `AudioRun.GenerateBookAudioJob.StoreBatch` | app/Jobs/GenerateBookAudioJob.php:170-190 | the narrated nodes of a batch are stored and counted, the others are listed as failed |
| `AudioChain.RunFacts` | app/Jobs/GenerateBookAudioJob.php:92-220 | a run stores some of its stale nodes, each once, and all of them when it ends in done |
| `AudioChain.RunShrinksPending` | app/Jobs/GenerateBookAudioJob.php:92-220 | the list of stale nodes shrinks by exactly the nodes stored, in number and in characters |
| `AudioChain.RunsNarrateOnce` | app/Jobs/GenerateBookAudioJob.php:77-220 | over any series of runs each stale node is stored and paid for at most once, no fresh node is, and the characters narrated are those of the nodes that went from stale to stored |
| `AudioChain.DoneMeansComplete` | app/Jobs/GenerateBookAudioJob.php:118-126 | a run that ends in done leaves exactly the (node, hash) map computed from the speakable nodes, whatever the store held before |
| `AudioChain.RunProductiveIff` | app/Jobs/GenerateBookAudioJob.php:139-192 | a run narrates something exactly when some batch is reached, without a cancel, a time-out or an exception before it, for one of whose nodes the provider answers |
| `AudioChain.AbortedIff` | app/Jobs/GenerateBookAudioJob.php:139-192 | a run is aborted exactly when it reaches a batch that an exception ends |
| `AudioChain.ChainIsBounded` | app/Jobs/GenerateBookAudioJob.php:157-166 | in any chain no more runs narrate something than there were stale nodes at its start |
| `AudioChain.EmptySlicesMakeNoProgress` | app/Jobs/GenerateBookAudioJob.php:157-166 | runs that are out of time at their first batch leave the list of stale nodes as it is, however many there are, and each asks for the next |
| `AudioChain.ChainsHaveNoBound` | app/Jobs/GenerateBookAudioJob.php:157-166 | so with anything to narrate there are chains of every length |
| `AudioOutcomes.PendingMembers` | app/Jobs/GenerateBookAudioJob.php:118-126 | the list of a run is exactly the nodes without a row of the hash of their text, each with that text and hash |
| `AudioOutcomes.PendingInOrder` | app/Jobs/GenerateBookAudioJob.php:118-126 | in reading order |
| `AudioOutcomes.OutstandingMembers` | app/Jobs/GenerateBookAudioJob.php:263-274 | the re-check keeps exactly the items without a row of their hash |
| `AudioOutcomes.RunListsIff` | app/Jobs/GenerateBookAudioJob.php:139-192 | a run narrates exactly the stale nodes that come up and are answered, and lists as failed exactly those that come up and are not: an item comes up when no earlier batch ends the run and no exception comes before it |
| `AudioOutcomes.StatusIff` | app/Jobs/GenerateBookAudioJob.php:139-220 | a run ends cancelled, continued or aborted exactly when it reaches a batch where that is decided, otherwise done when no node fails and partial when one does |
| `AudioOutcomes.BatchContents` | app/Jobs/GenerateBookAudioJob.php:170-190 | after a batch of distinct ids that do not sanitise alike, each answered node's row has its name, hash and length and its file that node's own answer; every other row and file is as it was |
| `AudioOutcomes.RunContents` | app/Jobs/GenerateBookAudioJob.php:92-220 | the same over a whole run: each node that comes up and is answered, the other nodes of the book, and no rows besides |
| `AudioOutcomes.AnswersOutlast` | app/Jobs/GenerateBookAudioJob.php:77-220 | whatever runs follow, each node a run has narrated keeps in its file the answer it was narrated with |
| `AudioBilling.ChainCharges` | app/Jobs/GenerateBookAudioJob.php:194-213 | over a chain the final debits are those before the hold plus the chain's charges, no other account changes, and the hold's row is gone |
| `AudioInterleaving.InterleavedChainCharges` | app/Jobs/GenerateBookAudioJob.php:194-213 | the same with charges, credits, holds and releases of anybody in between, the chain's user included: the accounts are what those alone would leave, plus the chain's charges, plus the hold until it is given back |
| `AudioBilling.ContinuationsCharge` | app/Jobs/GenerateBookAudioJob.php:208-213 | continuations carry no hold and only charge for what they narrated |
| `AudioBilling.FirstRun` | app/Jobs/GenerateBookAudioJob.php:77-89 | the first run leaves the account as if its hold had never been placed |
| `AudioBilling.SlicesAddUp` | app/Jobs/GenerateBookAudioJob.php:194-200 | what the runs are charged for, together with what aborted runs narrated, is all that was narrated |
| `AudioBilling.NothingUnpaidIff` | app/Jobs/GenerateBookAudioJob.php:77-89 | all narrated work is charged exactly when no run of the series meets an exception in a batch it reaches with something of that batch or an earlier one narrated |
| `AudioBilling.UnpaidIff` | app/Jobs/GenerateBookAudioJob.php:77-89 | nothing is unpaid exactly when no aborted run had narrated any characters |
| `AudioBilling.DiedUnpaid` | app/Jobs/GenerateBookAudioJob.php:77-89 | a book of one node narrated by a run that dies after it, and a second run that is done: all of it stored, nothing of it charged |
| `AudioBilling.DiedUnpaidCosts` | app/Jobs/GenerateBookAudioJob.php:77-89 | with 200 characters at the default rate and the budget tier the two debit nothing, where one run would debit three units |
| `AudioBilling.ChainCostBound` | app/Jobs/GenerateBookAudioJob.php:194-200 | what k runs debit is within (k + 1) / 2 units of what one run over the characters they are charged for would debit; at the premium tier both are nothing |
| `AudioBilling.ChainCostsTheSameIff` | app/Jobs/GenerateBookAudioJob.php:194-200 | a series of runs debits what one run over all it narrated would, exactly at the premium tier or when the runs' rounding errors, less the price of what aborted runs were not charged for, are what one rounding can be off by |
| `AudioBilling.SplitCostsDiffer` | app/Jobs/GenerateBookAudioJob.php:194-200 | two runs of 100 characters debit four units and one of 200 debits three, at the default rate and the budget tier |
| `SentenceSplit.SplitSentences` | app/Jobs/GenerateBookAudioJob.php:361-392 | segments are non-empty and at most the cap, keep every narrated character in order, only sentences longer than the cap are cut, and a sentence starts a new segment only when the one before could not hold it |
| `SentenceSplit.PregSplit` | app/Jobs/GenerateBookAudioJob.php:366 | sentences end at the first separator, which is dropped as a whole |
| `SentenceSplit.SeparatorIff` | app/Jobs/GenerateBookAudioJob.php:366 | what separates: all the white space after a full stop, exclamation or question mark, or else all the newlines, at a position |
| `SentenceSplit.PackSentences` | app/Jobs/GenerateBookAudioJob.php:367-392 | the segments are groups of whole sentences put together, or a cut-up sentence's pieces; of two groups in a row, the first with a blank and the first sentence of the second would exceed the cap |
| `SentenceSplit.AddSentence` | app/Jobs/GenerateBookAudioJob.php:367-388 | a sentence that fits joins the buffer, one that does not flushes it first, one over the cap is cut up |
| `SentenceSplit.HardWrap` | app/Jobs/GenerateBookAudioJob.php:395-400 | a long sentence is cut at blanks, or inside a word only where the word fills a whole segment |
| `SentenceSplit.WordWrap` | app/Jobs/GenerateBookAudioJob.php:397 | the positions of the breaks: the last blank that leaves the piece within the width, or inside a word that fills it and goes on |
| `SentenceSplit.SentencesKeep` | app/Jobs/GenerateBookAudioJob.php:366 | splitting loses white space only |
| `SentenceSplit.WrapKeeps` | app/Jobs/GenerateBookAudioJob.php:397-399 | so does wrapping |
| `ImportRetry.ImportJob.Run` | app/Jobs/ProcessDocumentImportJob.php:544-875 | the database part of an attempt, cut off after any number of statements |
| `ImportRetry.ImportJob.SaveNodes` | app/Jobs/ProcessDocumentImportJob.php:581-646 | old nodes go only if the book has some; inserts in batches of 5000 |
| `ImportRetry.ImportJob.SaveFootnotes` | app/Jobs/ProcessDocumentImportJob.php:693-820 | old rows go only if the footnotes table has some; three inserts per 500 footnotes |
| `ImportRetry.ImportJob.SaveReferences` | app/Jobs/ProcessDocumentImportJob.php:835-875 | old references always go; one row per id, the last of each |
| `ImportSafety.AttemptKeepsOwnKeys` | app/Jobs/ProcessDocumentImportJob.php:544-875 | however early an attempt is cut off, it leaves only rows of this input |
| `ImportSafety.AttemptDone` | app/Jobs/ProcessDocumentImportJob.php:544-875 | an attempt completes exactly when the worker lives through its statements and the footnote section finds no leftovers; a completed one leaves the clean import and nothing else |
| `ImportSafety.RetriedImportIsClean` | app/Jobs/ProcessDocumentImportJob.php:581-875 | after any number of attempts on a fresh book, cut off between any two statements, an attempt that completes leaves exactly the tables of one uninterrupted import |
| `ImportContents.RetriedImportHolds` | app/Jobs/ProcessDocumentImportJob.php:581-875 | and these are, in the conversion's own fields: node i at line 100 * (i + 1); for each id the last footnote's content in two tables and "Annotation: " with the id as its title; for each id the text of the last reference; nothing else, and no row for an id that is empty or "0" |
| `ImportContents.PutReplaces` | app/Jobs/ProcessDocumentImportJob.php:868-870 | of two references with one id the later one is stored |
| `ImportContents.OnlyFnIsDeleted` | app/Jobs/ProcessDocumentImportJob.php:704-710 | the footnote section's deletes spare exactly the sub-book rows whose key does not begin with Fn |
| `ImportContents.CostIs` | app/Jobs/ProcessDocumentImportJob.php:581-875 | the number of statements of an uninterrupted attempt, from the tables it finds and the numbers of nodes, footnotes and reference ids |
| `ImportSafety.FreshImportCompletesIff` | app/Jobs/ProcessDocumentImportJob.php:693-820 | an uninterrupted first attempt completes exactly when no footnote id occurs twice |
| `ImportSafety.UninterruptedCompletesIff` | app/Jobs/ProcessDocumentImportJob.php:693-710 | an uninterrupted attempt completes exactly unless it meets sub-book rows without any footnote row to announce them |
| `ImportSafety.LostFootnotesStopTheNextAttempt` | app/Jobs/ProcessDocumentImportJob.php:704-709 | that state is reachable: two cut-off attempts after which the next one fails however long it lives |
| `ImportSafety.SecondAttemptCompletes` | app/Jobs/ProcessDocumentImportJob.php:693-820 | it costs one attempt: the one after the failed one completes |
| `KeyedRows.InsertAllSucceedsIff` | app/Jobs/ProcessDocumentImportJob.php:798-800 | an insert goes through exactly when its keys are distinct and new |
| `CopyText.BulkCopy` | app/Jobs/ProcessDocumentImportJob.php:505-542 | the lines of every batch of 10000, which the database reads back as the sanitised rows |
| `CopyText.FormatBatch` | app/Jobs/ProcessDocumentImportJob.php:517-539 | one line a row, one field a column |
| `CopyText.FormatValue` | app/Jobs/ProcessDocumentImportJob.php:520-535 | null, booleans and text, each decoded to what it stands for |
| `CopyText.EscapeCharwise` | app/Jobs/ProcessDocumentImportJob.php:531-534 | the four replacements in sequence equal one character-by-character escape |
| `CopyText.CellRoundTrip` | app/Jobs/ProcessDocumentImportJob.php:520-535 | null, the empty text and the text `\N` stay three different values |
| `CopyCells.CellsArrive` | app/Jobs/ProcessDocumentImportJob.php:505-542 | each cell of a batch arrives at its row and column: null for a null or a missing value, t or f for a boolean, the sanitised text for a text |
| `CopyCells.EachIsEscaped` | app/Jobs/ProcessDocumentImportJob.php:531-534 | backslash, tab, newline and carriage return are escaped where they stand, and no other character changes |
| `CopyCells.CleanTextStays` | app/Jobs/ProcessDocumentImportJob.php:527-529 | a text without a null byte and without a null sequence is stored as it is |
| `CopyText.RowRoundTrip` | app/Jobs/ProcessDocumentImportJob.php:538 | a line decodes to its row; it has no raw newline and is not the end-of-data marker |
| `CopyText.StreamRoundTrip` | app/Jobs/ProcessDocumentImportJob.php:505-542 | decoding what is sent for a batch gives back exactly the sanitised row matrix |
| `CopyText.SanitizedLeavesIff` | app/Jobs/ProcessDocumentImportJob.php:527-529 | a sanitised text has no null byte; the six-character null sequence occurs in it exactly if the text, less its null bytes, spells one apart from whole ones in between |
| `CopyText.NestedLeavesOne` | app/Jobs/ProcessDocumentImportJob.php:529 | a null sequence put into another one, at any place, leaves one |
| `Renumber.SaveNodes` | app/Jobs/ProcessDocumentImportJob.php:589-650 | the flushed batches and the JSON list are the renumbered valid lines; all batches but the last have 5000 rows |
| `Renumber.RenumberLine` | app/Jobs/ProcessDocumentImportJob.php:601-616 | which lines are skipped, and what the others become |
| `Renumber.RowAt` | app/Jobs/ProcessDocumentImportJob.php:606-634 | row and JSON node i in all columns: start line 100 * (i + 1), the chunk id, the generated id, the content with that id in it, and everything else from the input's node i |
| `RenumberedLines.EachLineCounts` | app/Jobs/ProcessDocumentImportJob.php:599-604 | a line adds its node where it stands, or nothing if it is blank or does not decode |
| `RenumberedLines.JsonIsAList` | app/Jobs/ProcessDocumentImportJob.php:631-633 | nodes.json has the encoded nodes with a comma between any two |
| `PhpStrings.TrimIs` | app/Jobs/ProcessDocumentImportJob.php:600 | trimming cuts off both ends what PHP's trim strips, and all of it |
| `Renumber.ChunkCovers` | app/Jobs/ProcessDocumentImportJob.php:607-608 | a chunk id covers exactly one hundred consecutive nodes, or what is left at the end |
| `VersionHistory.NodeStore.RestoreTo` | app/Services/BookVersionRestorer.php:23-89 | the book reads as the rows active one microsecond before the timestamp, or nothing changes if there are none |
| `VersionHistory.NodeStore.DeleteBook` | app/Services/BookVersionRestorer.php:46 | the deleted rows are archived by the trigger |
| `VersionHistory.NodeStore.BumpTimestamps` | app/Services/BookVersionRestorer.php:66-77 | the timestamps of the book and of exactly its sub-books are set |
| `VersionHistory.RestoreGives` | app/Services/BookVersionRestorer.php:23-63 | a restore leaves the book exactly as it was at that instant |
| `VersionHistory.RestoreKeepsOtherBooks` | app/Services/BookVersionRestorer.php:46-63 | other books read the same afterwards |
| `VersionHistory.InsertKeepsPastIff` | database/migrations/2026_02_07_000001_install_temporal_versioning_function.php:22-225 | an insert leaves what a book was at an instant exactly when it is in another book or its transaction began later |
| `VersionHistory.DeleteKeepsPastIff` | database/migrations/2026_02_07_000001_install_temporal_versioning_function.php:22-225 | a delete leaves it exactly when the row is not of the book, began later, or is archived with a period that reaches over the instant |
| `VersionHistory.UpdateKeepsPastIff` | database/migrations/2026_02_07_000001_install_temporal_versioning_function.php:22-225 | an update leaves it under the same conditions, or when it does not change the data |
| `VersionHistory.OpKeepsPastIff` | database/migrations/2026_02_07_000001_install_temporal_versioning_function.php:22-225 | so for every row operation by any transaction, begun earlier or later, with the trigger on or off, there is the exact condition under which it leaves the past |
| `VersionHistory.UnversionedDeleteLoses` | database/migrations/2026_02_07_000004_create_nodes_versioning_trigger.php:8-39 | a delete with the trigger off loses what the row showed, at exactly the instants from its start on |
| `VersionHistory.UnversionedUpdateRewrites` | database/migrations/2026_02_07_000004_create_nodes_versioning_trigger.php:8-39 | an update with the trigger off rewrites it at exactly those instants, unless it changes nothing |
| `VersionHistory.RestoreKeepsPastIff` | app/Services/BookVersionRestorer.php:46-63 | a restore of another book, or one begun after the instant, leaves the past exactly when it finds nothing or each row it replaces is archived over the instant |
| `VersionHistory.EventsKeepPast` | app/Services/BookVersionRestorer.php:10-15 | no run of edits, applies and restores that do not reach back to an instant changes what it shows |
| `VersionHistory.LaterEventsSpare` | app/Services/BookVersionRestorer.php:10-15 | transactions begun after the instant, with the trigger on, never reach back, in any number and with restores among them |
| `VersionHistory.PinShowsContentsIff` | app/Jobs/VibeConversionJob.php:142-144 | the pinned instant shows the live book exactly when no row of it began at or after it |
| `VersionHistory.PinnedRevert` | app/Services/BookVersionRestorer.php:23-63 | restoring to the pinned timestamp brings back the nodes live when it was pinned, whatever happened since that does not reach back before it |
| `VersionTimeline.ShowsWhatItRead` | app/Services/BookVersionRestorer.php:10-30 | time travel: after any series of transactions one after the other, of edits, applies and restores, the tables show at an instant exactly what the book read after the transactions begun by then, as long as those after it run under the trigger |
| `VersionTimeline.RestoreReturnsTheState` | app/Services/BookVersionRestorer.php:23-63 | so a restore to any timestamp returns the state left by the transactions begun before it |
| `VersionTimeline.RestoredFromNowOn` | app/Services/BookVersionRestorer.php:23-63 | from its transaction on, a restored book shows the restored nodes and none of those they replaced, if its rows began before and its archived ones had ended by then |
| `VersionTimeline.DeletedFromNowOn` | database/migrations/2026_02_07_000001_install_temporal_versioning_function.php:150-156 | a row that began before is missing from the delete's transaction on |
| `VersionTimeline.UpdatedFromNowOn` | database/migrations/2026_02_07_000001_install_temporal_versioning_function.php:150-156 | and after an update shows its new data in place of the old |
| `VersionTimeline.ArchivedHasEnded` | database/migrations/2026_02_07_000001_install_temporal_versioning_function.php:150-213 | what is archived of a row that began before is not shown at the transaction's time or later |
| `VersionTimeline.ArchivedForAMicrosecond` | database/migrations/2026_02_07_000001_install_temporal_versioning_function.php:150-156 | of a row that began at the transaction or later exactly the first microsecond is archived |
| `VersionTimeline.BumpedIs` | app/Services/BookVersionRestorer.php:66-77 | the restored book's own timestamp is set, and those of ids that begin with its id and a slash, and no other |
| `VibePin.VibeConversion.ApplyFix` | app/Jobs/VibeConversionJob.php:142-176 | which timestamp a round uses, and what the two marker files say afterwards |
| `VibePin.VibeConversion.RejectReview` | app/Http/Controllers/VibeConvertController.php:207-228 | a revert restores and clears both files, or changes nothing |
| `VibePin.RoundsKeepFirstPin` | app/Jobs/VibeConversionJob.php:145-158 | however many rounds follow, all keep the pin that was there, or else the first round's |
| `VibePin.UnreadableOriginPinsNothing` | app/Jobs/VibeConversionJob.php:150-155 | an origin file without a timestamp is neither used nor replaced |
| `VibePin.RevertOfferedIff` | app/Jobs/VibeConversionJob.php:159-176 | a revert is on offer exactly when the latest round was applied, and to the pin, or to that round's own time if the origin file is unreadable |
| `VibePin.FailedApplyHidesRevert` | app/Jobs/VibeConversionJob.php:159-176 | a failed round after an applied one leaves the pin with no revert on offer, and the next applied round offers the same revert again |
| `VibePin.RevertReturnsToOriginal` | app/Jobs/VibeConversionJob.php:142-158 | "Revert to original" returns to the conversion before the first round, also in runs that found the pin in place |
| `LikePattern.EscapeLikeCharwise` | app/Services/BookVersionRestorer.php:76 | the three replacements in sequence escape each character once |
| `LikePattern.EscapedMatchesLiterally` | app/Services/BookVersionRestorer.php:76 | an escaped text matches itself and nothing else, whatever follows |
| `LikePattern.SubBookPatternIsPrefix` | app/Services/BookVersionRestorer.php:76-77 | the pattern matches exactly the ids that start with the book id and a slash, for every book id |
| `LikePattern.UnescapedIsPrefixIff` | app/Jobs/ProcessDocumentImportJob.php:584 | the import's unescaped pattern means that for exactly the ids without backslash, percent and underscore |
| `LikePattern.UnderscoreMatchesOtherBooks` | app/Jobs/ProcessDocumentImportJob.php:584 | an id of the generated form whose pattern selects another book's sub-book |
| `Headings.NormalizeHeadings` | app/Python/normalize_headings.py:27-61 | in place: the pointwise greatest well-nested outline below the input, and the number of headings changed |
| `Headings.AnalyzeHeadings` | app/Python/normalize_headings.py:94-115 | the number of gaps, following the levels as written |
| `Headings.NormalizedIsGreatest` | app/Python/epub_processor.py:176-204 | no well-nested outline below the input has a deeper heading anywhere |
| `Headings.NormalizedIsIdempotent` | app/Python/preprocess_html.py:230-246 | normalising twice is normalising once |
| `Headings.UnchangedIffWellNested` | app/Python/normalize_headings.py:27-61 | nothing changes exactly when the outline was well nested |
| `HeadingNesting.WellNestedIff` | app/Python/normalize_headings.py:27-61 | well nested means: each heading below h1 has one before it at most one level higher, with no h1 in between |
| `Headings.SilentIffUnchanged` | app/Python/normalize_headings.py:94-115 | the analyser is silent on an outline with a leading h1 exactly when there is nothing to change |
| `Headings.NormalizedIsSilent` | app/Python/normalize_headings.py:94-115 | after a normalising run the analyser has nothing to report |
| `Headings.IssuesAtMostChanges` | app/Python/normalize_headings.py:94-115 | the analyser never reports more gaps than the normaliser repairs |
| `Headings.CountsAgreeIff` | app/Python/normalize_headings.py:94-115 | as many gaps are reported as headings are repaired, exactly when every repaired heading is a gap in the levels as written too |
| `Headings.AnalyserMayReportFewer` | app/Python/normalize_headings.py:94-115 | h1, h4, h4: one reported gap, two repaired headings |
| `SubBookIds.ParseBuildChain` | app/Helpers/SubBookIdHelper.php:13-63 | parsing the id built through any chain of items gives back the foundation, the depth, the last item and the one before it |
| `SubBookIds.BuildChainForm` | app/Helpers/SubBookIdHelper.php:13-24 | the written form of such an id: foundation/item at depth one, foundation/depth/parent/item below |
| `SubBookIds.SameIdIff` | app/Helpers/SubBookIdHelper.php:13-101 | two chains get the same id exactly when they agree on those four; ancestors further up are not part of the id |
| `Decimal.ParsePrint` | app/Helpers/SubBookIdHelper.php:45-53 | the printed level reads back as the level |
| `ShelfSlug.Unique` | app/Services/ShelfSlug.php:22-50 | the loop ends, with the base slug if free and otherwise the least free suffix from 2 |
| `ShelfSlug.TriedAtMostStored` | app/Services/ShelfSlug.php:31-47 | there are no more taken candidates than stored slugs |
| `ShelfSlug.InsertKeepsUnique` | app/Services/ShelfSlug.php:8-16 | storing a shelf under the slug found keeps (creator, slug) unique |
| `ShelfSlug.OwnSlugIsFree` | app/Services/ShelfSlug.php:36-38 | a shelf's own slug does not stand in its way when it is renamed |
| `ShelfSlug.UpdateKeepsUnique` | app/Services/ShelfSlug.php:36-38 | so does renaming a shelf, which looks past its own row |

## Left out

- Queues, HTTP, mail, locks, file streams, progress records and logging; HTTP endpoints other than the revert.
- Language-model, search, speech and OCR calls, score formulas and accept gates: a wave's outcome for an entry is an arbitrary verdict, a narration or a disambiguation an arbitrary answer.
- What the waves write into the rows they resolve, and the parent row a resolved sub-citation writes to; pointer matching against the bibliography and the exclusion of legal citations, which only shrink the list the scan starts from.
- Loading footnotes for the short-form pass: markers, their order, and footnotes without a numeric marker, which never enter the list.
- The normaliser of titles and surnames is any function of strings; metadata fields it does not look at are one text.
- ScanConservation.ScanConservesIff: no reference has the very id generated for another one's sub-citation; the two would share a key of the pool, which is a list here.
- Billing.HoldIsTransparent: a reservation that is granted only without the hold, or only with it, changes what comes after it; Billing.RefusedForTheHoldIff says when that happens, and Billing.ReleaseCancelsItsHold what still holds; the same goes for AudioInterleaving.InterleavedChainCharges.
- Billing.BillingService.Charge: a caller's own `reservation` entry in the metadata of a charge is not modelled.
- Overlapping audio runs and killed workers, where no finally block runs; changes of the chain user's tier in the middle of a chain; the synthesis of over-long nodes and the joining of MP3 parts.
- SentenceSplit.SplitSentences: one unit per character where PHP's wordwrap counts bytes, ASCII white space only, and text without NUL.
- Rows of other books in the import, whose pattern is an exact prefix there; node ids are taken to be new in every attempt; generated ids and timestamps are not compared.
- CopyText.BulkCopy: PDO's own quoting of the COPY options; the columns and rows are those handed over.
- SubBookIds.ParseBuildChain: a level is read as leading digits; signs, exponents and surrounding white space of PHP's integer cast do not occur in built ids.
- VersionHistory.NodeStore.RestoreTo: the unique (book, node id) index, which could make a restore fail, is not modelled; transaction ids do not wrap around.
- VersionTimeline.ShowsWhatItRead: the transactions begin one after the other, each with its own id; what overlapping ones leave at an instant is said operation by operation (VersionHistory.OpKeepsPastIff).
- AudioOutcomes.RunContents: no two of the ids sanitise alike; where two do, AudioStore.OthersUntouchedIff says exactly when a store changes another node's file.
- VersionHistory.EventsKeepPast: for whole runs the condition is sufficient only, since a later operation can undo what an earlier one rewrote; it is exact for each operation (VersionHistory.OpKeepsPastIff).
- HTML surgery around headings, and the ordering of ledger rows.
