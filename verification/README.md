# Verification model of security-toolchain

The security toolchain scans a repository with four scanners, compares what they find with a
baseline kept beside the code, and keeps the callers of its workflows in a fleet of repositories
pinned to one release. This project models the decisions under its input and output, and proves
what they promise. `dafny verify dfyconfig.toml` verifies all of it.

## What is modelled

- **Overlays** (`overlays.dfy`, `overlay_laws.dfy`, `overlay_order.dfy`). The depth-first walk of
  `resolve_overlay` over a user-written `extends` graph that may have cycles. The walk is an object
  whose three fields grow; it refines a function of the graph, and that function is shown to satisfy
  an equation that determines entries, order and errors without walking.
- **Installers** (`download.dfy`, `archive.dfy`, `tool_installer.dfy`, `rules_installer.dfy`,
  `rules_progress.dfy`).
  The download loop on a file system with `.part` files, and the two cache installers as state
  machines with crashes, arbitrary network replies and, for tools, any interleaving of processes.
- **Reports and the gate** (`findings.dfy`, `scanners.dfy`, `advisories.dfy`, `sarif.dfy`, `sarif_laws.dfy`,
  `baseline.dfy`, `gate.dfy`, `ci.dfy`). The four parsers, the two in-place SARIF rewriters, the
  baseline as text, the ratchet, and a whole run, together with the compositions: demote, then
  parse; demote, then drop; measure, then print, then read, then gate.
- **Scope** (`changed.dfy`). The bounded pagination of the pull-request files and the list file
  with its sentinel.
- **Fleet edits** (`markers.dfy`, `pins.dfy`, `pinned.dfy`, `pin_pieces.dfy`, `lines.dfy`,
  `pin_lines.dfy`, `permissions.dfy`, `trigger.dfy`, `trigger_laws.dfy`, `workflow.dfy`,
  `seams.dfy`, `workflow_laws.dfy`, `crossing.dfy`, `auto_merge.dfy`, `templates.dfy`, `plan.dfy`). The text
  edits of `propagate.py`, character by character where the regular expressions work on characters
  and line by line where they are anchored to lines, up to the fixpoint of a whole plan.
- **The reader** (`pin_reader.dfy`, `verify.dfy`). `caller_pins`, `precommit_rev` and the pin
  checks, which read back what the edits wrote.
- **Vocabulary** (`wrappers.dfy`, `seqs.dfy`, `text.dfy`): options and results, filters and maps over
  sequences, and the `str` operations of Python with their laws.

Text is a sequence of characters. Whitespace and line breaks are those of `str.isspace` and
`str.splitlines`. Every regular expression is written out as a matcher; where a greedy repetition
cannot profit from backtracking the matcher takes the longest run.

## Where the code does not keep a promise

Each of these is a property that does not hold of the code as it stands. The exact condition under
which it does hold is proved, and so is an input on which it fails; both lemmas are named.

- A baseline key that starts with `#`, has trailing whitespace, is blank or contains a line break is
  not read back as itself (`Baseline.KeyReadsBackExactly`, `Baseline.RoundTripExactly`;
  `Baseline.HashKeyIsLost`). The keys of findings are stripped and not blank (`Ci.KeysAreStripped`),
  so for them a leading `#` and a line break remain: measured and then ratcheted, a blocking finding
  with such a key fails the run (`Ci.MeasuredThenRatcheted`; `Ci.HashRuleFailsAgain`).
- A listed low-confidence result can still block when rule ids are doubled or a level is the empty
  string (`SarifLaws.LowResultBlocksExactly`; `SarifLaws.DoubledIdStillBlocks`,
  `SarifLaws.EmptyLevelStillBlocks`).
- The demotion count is not the number of results that change their effective level
  (`SarifLaws.CountIsChangesExactly`, `SarifLaws.IdentifiedCountIsChangesExactly`;
  `SarifLaws.EmptyLevelIsNotCounted`, `SarifLaws.DoubledIdIsCounted`).
- The upload can show a real `error` as a warning when rule ids are doubled
  (`SarifLaws.UploadIsUntouchedExactly`; `SarifLaws.DoubledIdIsUploadedDemoted`).
- A rule id with two bundle names is not normalised by one pass
  (`SarifLaws.NormalizeIsIdempotentExactly`; `SarifLaws.TwoBundlesNeedTwoPasses`).
- An OSV advisory, and with it a key, can depend on the order of vulnerabilities with the same id
  (`Advisories.OrderShowsExactly`; `Advisories.DoubledVulnDependsOnOrder`).
- A digest mismatch is retried when the part cannot be removed at once
  (`Download.MismatchIsFinalExactly`, `Download.MismatchIsRetried`; `Download.MismatchThenInstalled`).
- The scope of a pull request lacks a file when the API gives no answer and the diff gives one
  without it; a pull request of 3000 deleted files is scanned for nothing
  (`Changed.ScopeNarrowsExactly`; `Changed.LargePullRequestIsNarrowed`).
- A list whose lone entry spells `ALL` is read as a full scan (`Changed.ListRoundTripsExactly`;
  `Changed.LoneAllIsReadAsAll`), and the sentinel is not recognised in the environment's file
  (`Changed.EnvFileRoundTripsExactly`; `Changed.SentinelIsNotReadFromEnv`).
- `upsert_block` changes its own output again when only one marker was there, or the END line lay
  above the BEGIN line (`Markers.UpsertIsIdempotentExactly`; `Markers.ToolchainLoneBeginIsNotStable`).
- Bumping a pin glued to an empty comment (`@abc#` at the end of a line) leaves a `#` that the next
  bump takes into the comment (`Pins.BumpIsIdempotentExactly`; `Pins.GluedPinIsEaten`).
- A call whose callee stands in the line below its `uses:` can be torn apart by an inserted
  permission, so that the pin is lost and the next run renders the template
  (`WorkflowLaws.UpsertIsStableExactly`, `WorkflowLaws.UpsertIsIdempotentExactly`;
  `Crossing.TornIsNotStable`).
- The tag written into the pre-commit configuration is not the revision read back if the repository
  is named, with another revision, above the block (`Verify.UpsertedRevIsReadExactly`;
  `Verify.OtherRevIsRead`).

## Model

| member | source | states |
|---|---|---|
| Overlays.OverlayWalk.Visit | thyn_security_toolchain/hooks.py:141-158 | the recursive walk terminates on every graph, fails with the first error met in depth-first order, and otherwise grows `seen`, the packs and the excludes exactly by what the graph walk contributes |
| Overlays.ResolveOverlay | thyn_security_toolchain/hooks.py:127-160 | the whole resolution, run on fresh fields, returns or raises exactly what the specification of the graph says |
| Overlays.AppendMissing | thyn_security_toolchain/hooks.py:152-157 | appending entry by entry keeps the first occurrence of every entry and the order |
| OverlayLaws.ResolveSucceedsExactly | thyn_security_toolchain/hooks.py:109-160 | resolution succeeds if and only if the name is known and every overlay reachable through `extends` has list-of-string fields and known parents, cycles or not |
| OverlayLaws.ContributorsAreReached | thyn_security_toolchain/hooks.py:141-158 | the overlays that contribute are exactly the reachable ones, each once, and all are well formed |
| OverlayLaws.FirstOccurrencesAreFirst | thyn_security_toolchain/hooks.py:151-157 | what is kept is distinct, complete, and ordered by first occurrence in the post-order concatenation |
| OverlayLaws.ResolvedIsUnion | thyn_security_toolchain/hooks.py:127-160 | packs and excluded rules are free of duplicates and equal as a set the union over all reachable overlays |
| OverlayLaws.AncestorsAreIncluded | thyn_security_toolchain/hooks.py:127-160 | every ancestor resolves too, and a child holds everything each of its ancestors holds |
| OverlayLaws.AncestorsContributeFirst | thyn_security_toolchain/hooks.py:141-158 | on an acyclic graph the order is topological: each ancestor contributes before any of its descendants |
| OverlayLaws.AliasResolvesToTarget | thyn_security_toolchain/hooks.py:127-160 | an overlay that only extends one known parent resolves to exactly the ordered result, or the error, of the parent, also when the graph leads back through the alias |
| OverlayOrder.ResolveUnfolds | thyn_security_toolchain/hooks.py:109-160 | on every graph, cyclic or not: an overlay resolves to what its parents resolve to, one after the other in the order listed, then its own entries, less repetitions, or to the first defect on that way; where the graph leads back to it, its parents find it empty |
| OverlayOrder.ResolvesToSum | thyn_security_toolchain/hooks.py:127-160 | without a cycle through the overlay the parents resolve as they do by themselves |
| OverlayOrder.SiblingsKeepOrder | thyn_security_toolchain/hooks.py:145-157 | what a parent brings stands before what only parents listed later, or the overlay itself, bring |
| Download.DownloadVerified | thyn_security_toolchain/fetch.py:61-91 | at most `attempts` tries, another one only after a fault that the handler caught and cleaned up after; on success `dest` holds one complete reply with the expected digest; in every other case it is untouched, and a part is left only if a removal fails or the fault is not caught |
| Download.VerdictExactly | thyn_security_toolchain/fetch.py:65-91 | which replies are kept, and which are tried again |
| Download.FaultsThenInstalled | thyn_security_toolchain/fetch.py:65-91 | transport faults that are cleaned up after, fewer than the attempts, do not keep a genuine reply from being used |
| Download.MismatchIsFinalExactly | thyn_security_toolchain/fetch.py:76-91 | a mismatch is refused for good if and only if the part can be removed at once; it is retried if and only if only the handler's own removal succeeds |
| Download.MismatchIsRetried | thyn_security_toolchain/fetch.py:65-91 | with attempts left another reply is used after a mismatch exactly then |
| Download.MismatchThenInstalled | thyn_security_toolchain/fetch.py:65-91 | replies on which a mismatch is followed by an installation |
| Download.Receive | thyn_security_toolchain/fetch.py:68-74 | the part holds the concatenated chunks and the running digest is the digest of the whole |
| Archive.SingleMember | thyn_security_toolchain/fetch.py:94-110 | the first regular member with the wanted base name, and an error exactly when there is none |
| Archive.ExtractExactly | thyn_security_toolchain/fetch.py:167-187 | extraction succeeds exactly when no path is wanted as file and folder; then it is the last-writer-wins map of the stripped, regular, relative, `..`-free members with exactly the folders they need |
| Archive.SafeExtract | thyn_security_toolchain/fetch.py:167-187 | the member-by-member loop computes that extraction |
| Archive.ExtractedFileExactly | thyn_security_toolchain/fetch.py:167-187 | a file is extracted if and only if a regular member lies there below the top-level directory, by a relative path without `..`, and it holds what the last such member does |
| Archive.ExtractedFolderExactly | thyn_security_toolchain/fetch.py:167-187 | the directories are exactly those that such members are or lie in |
| ToolInstaller.StepIsSafe | thyn_security_toolchain/fetch.py:113-137 | every step or crash of any process keeps the invariant of the cache, and an installed tool never disappears |
| ToolInstaller.EveryRunIsSafe | thyn_security_toolchain/fetch.py:113-137 | whatever the schedule, replies and crashes: an existing tool path holds the payload of a download with the locked digest and is executable, and stays once present |
| ToolInstaller.EmptyCacheIsSafe | thyn_security_toolchain/fetch.py:113-137 | the empty cache satisfies the invariant the runs start from |
| ToolInstaller.InstalledToolIsStable | thyn_security_toolchain/fetch.py:113-137 | if one payload only has the locked digest, the installed content never changes again |
| ToolInstaller.ProcessInstalls | thyn_security_toolchain/fetch.py:113-137 | where no tool is cached, fewer than three failed attempts and then the locked download lead to an executable with what the lock entry takes out of it |
| ToolInstaller.LookUpDecides | thyn_security_toolchain/fetch.py:116-122 | a cached tool is returned as it is, and offline nothing is fetched |
| RulesInstaller.StepIsSafe | thyn_security_toolchain/fetch.py:140-165 | every step of the installer, and a crash at any of them, keeps the invariant that ties the marker to a full extraction |
| RulesInstaller.EveryRunIsSafe | thyn_security_toolchain/fetch.py:140-165 | so does every sequence of steps, crashes and restarts |
| RulesInstaller.MarkerMeansComplete | thyn_security_toolchain/fetch.py:140-187 | from an empty cache, whenever the completeness marker exists every path holds what the last accepted member of a digest-checked tarball wrote there, and nothing else is there |
| RulesProgress.InstallerFinishes | thyn_security_toolchain/fetch.py:140-187 | from any state, after a crash and a restart, a run without a failure returns with the marker: at once if it is there, else with the extraction of the tarball in place, also over an old directory |
| RulesProgress.ReturnsExactly | thyn_security_toolchain/fetch.py:140-187 | from the empty cache some run returns if and only if some tarball with the locked digest can be extracted and leaves room for the marker |
| RulesProgress.LookUpDecides | thyn_security_toolchain/fetch.py:144-149 | a complete bundle is returned as it is, and offline nothing is fetched |
| Findings.NormWsIsCanonical | thyn_security_toolchain/gate.py:89-97 | a normalised text is within its limit, without edge or doubled whitespace; exactly such texts are left alone, so normalising is idempotent |
| Findings.StripCollapseIsUnwords | thyn_security_toolchain/gate.py:89-97 | normalising whitespace is joining the words by single spaces |
| Findings.NormWsDependsOnWords | thyn_security_toolchain/gate.py:89-97 | two texts with the same words give the same key part, however they are laid out |
| Findings.NormWsCutsAtLimit | thyn_security_toolchain/gate.py:89-97 | the joined words are cut at the limit, or one character before it where that falls behind a space, and not at all if they fit |
| Scanners.ParseTrivySarif | thyn_security_toolchain/gate.py:333-372 | the loops over rules, results and duplicates compute the specified findings |
| Scanners.Dedupe | thyn_security_toolchain/gate.py:364-371 | one pass with a `seen` set keeps exactly the first finding of each key, in order |
| Scanners.TrivyKeysAreDistinct | thyn_security_toolchain/gate.py:333-372 | no two Trivy findings share a key, no reported key is lost, and each finding kept is the first of its key |
| Scanners.SeverityBands | thyn_security_toolchain/gate.py:100-111 | the bands of a score, and the middle one without a score |
| Scanners.CheckBlocksExactly | thyn_security_toolchain/gate.py:333-363 | a Trivy finding blocks if and only if its score is at least seven |
| Scanners.SameCheckExactly | thyn_security_toolchain/gate.py:350-358 | two checks share a key if and only if rule and file are the same |
| Scanners.LeakKeyIs | thyn_security_toolchain/gate.py:433-442 | gitleaks' own fingerprint is the key, else file, rule and line |
| Scanners.AdvisoryDependsOnSet | thyn_security_toolchain/gate.py:375-384 | the advisory chosen depends only on the set of trimmed ids and aliases |
| Scanners.AdvisoryIsPreferred | thyn_security_toolchain/gate.py:375-384 | it is the least GHSA id, else the least CVE id, else the least id, and `UNKNOWN` exactly without any |
| Scanners.ParseOsvJson | thyn_security_toolchain/gate.py:387-425 | the loops over packages, groups, ids, aliases and summaries, over a dictionary in which the last entry with an id wins, compute the findings whose keys the next rows characterise |
| Advisories.KeyDependsOnAdvisories | thyn_security_toolchain/gate.py:396-420 | the key of a group depends only on the coordinate and on which trimmed ids and aliases it names, where of a doubled vulnerability id the last entry counts |
| Advisories.ShuffledKeepsKey | thyn_security_toolchain/gate.py:399-404 | with distinct vulnerability ids the order and the repetition of vulnerabilities, ids and aliases do not show in a key |
| Advisories.OsvKeysDependOnAdvisories | thyn_security_toolchain/gate.py:387-425 | over whole reports: if every group of one has its like in the other, every key reported for the one is reported for the other |
| Advisories.OrderShowsExactly | thyn_security_toolchain/gate.py:399-404 | two orders of a package's vulnerabilities give a group different keys if and only if the best of all names its ids and their entries have can be hidden: it is no id of the group, every entry that has it is doubled by one that lacks it, and what remains without it is not the nameless group that reads alike |
| Advisories.KeyShowsAdvisory | thyn_security_toolchain/gate.py:411-421 | with one coordinate two keys are equal exactly when their advisories are |
| Advisories.KeyShowsCoordinate | thyn_security_toolchain/gate.py:411-421 | with one advisory two keys are equal exactly when the coordinates are |
| Advisories.GroupBlocksExactly | thyn_security_toolchain/gate.py:405-421 | a vulnerability blocks if and only if its group has a score of at least seven |
| Advisories.ParsedInOrder | thyn_security_toolchain/gate.py:387-425 | one finding for each group, group after group and package after package |
| Advisories.UngroupedIsOne | thyn_security_toolchain/gate.py:399-400 | without groups there is one, of every id once |
| Advisories.SummaryIsLast | thyn_security_toolchain/gate.py:410-412 | the summary is that of the last id whose entry has one |
| Advisories.DoubledVulnDependsOnOrder | thyn_security_toolchain/gate.py:399-404 | with a doubled id whose two entries have different CVE aliases, swapping the entries changes the key |
| Sarif.SarifFile.DemoteLowConfidenceLevels | thyn_security_toolchain/gate.py:213-249 | the loops that rewrite rules and results in place leave the specified file, rewritten only when the count is not zero, and return the specified count |
| Sarif.SarifFile.DropAuditResults | thyn_security_toolchain/gate.py:252-290 | the second rewriter keeps exactly the results that are not of a low-confidence rule and counts the rest |
| Sarif.ParseOpengrepSarif | thyn_security_toolchain/gate.py:294-330 | the parser's loops compute one finding for every result, in order |
| SarifLaws.ParsedInOrder | thyn_security_toolchain/gate.py:294-330 | one finding for each result, in order, run after run |
| SarifLaws.BlocksExactly | thyn_security_toolchain/gate.py:294-330 | a finding blocks if and only if its own or its rule's level is `error` and the rule has no low-confidence tag |
| SarifLaws.NotesAreLow | thyn_security_toolchain/gate.py:294-330 | and it is low if and only if that level is `note` |
| SarifLaws.SameAlertExactly | thyn_security_toolchain/gate.py:294-330 | two results share a key if and only if normalised rule, file and normalised snippet are the same |
| SarifLaws.AuditIdExactly | thyn_security_toolchain/gate.py:202-210 | which ids are audit ids |
| SarifLaws.NormalizeIsIdempotentExactly | thyn_security_toolchain/gate.py:190-202 | normalising a rule id twice is normalising it once if and only if no second bundle name stands behind one on the id's first line |
| SarifLaws.TwoBundlesNeedTwoPasses | thyn_security_toolchain/gate.py:190-202 | an id under two bundle names needs two passes |
| SarifLaws.DemotionKeepsKeys | thyn_security_toolchain/gate.py:213-330 | parsing the demoted report gives the same keys in the same order, none more severe, whatever the report |
| SarifLaws.FileDemotionKeepsKeys | thyn_security_toolchain/gate.py:213-330 | so does parsing the file, which is not rewritten when nothing was counted |
| SarifLaws.DemotionIsIdempotent | thyn_security_toolchain/gate.py:213-249 | a second pass counts nothing and changes nothing |
| SarifLaws.LowResultBlocksExactly | thyn_security_toolchain/gate.py:205-330 | after demotion a listed low-confidence or audit result blocks if and only if one of the described gaps applies |
| SarifLaws.NoLowResultBlocks | thyn_security_toolchain/gate.py:205-330 | with unique rule ids and no empty level none of them blocks |
| SarifLaws.UnlistedIsUntouched | thyn_security_toolchain/gate.py:213-249 | a result that is of no low-confidence or audit rule is left alone, and its finding is the same |
| SarifLaws.DoubledIdStillBlocks | thyn_security_toolchain/gate.py:213-330 | a report with a doubled rule id leaves a listed result whose finding blocks, so the condition cannot be dropped |
| SarifLaws.EmptyLevelStillBlocks | thyn_security_toolchain/gate.py:213-330 | so does a report with an empty level |
| SarifLaws.CountIsChangesExactly | thyn_security_toolchain/gate.py:213-249 | for every report: nothing counted is nothing changed on disk; else the results changed on disk and those counted unchanged are as many as those counted and those changed uncounted, so the count is right exactly when the two odd kinds are equally many |
| SarifLaws.IdentifiedCountIsChangesExactly | thyn_security_toolchain/gate.py:213-249 | with unique rule ids the count is right exactly when no result is counted, or none is changed uncounted |
| SarifLaws.EmptyLevelIsNotCounted | thyn_security_toolchain/gate.py:213-249 | a report of which one result is counted and two change |
| SarifLaws.DoubledIdIsCounted | thyn_security_toolchain/gate.py:213-249 | a report of which one result is counted and none changes |
| SarifLaws.DropAfterDemotion | thyn_security_toolchain/gate.py:213-290 | demoting first neither adds nor removes a result that the drop keeps |
| SarifLaws.UploadIsUntouchedExactly | thyn_security_toolchain/ci.py:59-75 | in the copy made of the file after demotion, a run holds the scanner's own real results, untouched and in order, exactly when no `error` of a listed rule is a real result by the last rule with its id |
| SarifLaws.DoubledIdIsUploadedDemoted | thyn_security_toolchain/ci.py:59-75 | a report whose real `error` is uploaded as a warning |
| SarifLaws.IdentifiedUploadIsUntouched | thyn_security_toolchain/ci.py:59-75 | unique rule ids in the run suffice for that |
| SarifLaws.DropIsIdempotent | thyn_security_toolchain/gate.py:252-290 | a second drop removes nothing and counts nothing |
| SarifLaws.UploadHoldsRealResults | thyn_security_toolchain/ci.py:59-75 | with unique rule ids in every run, the upload is run by run the scanner's results without the low-confidence ones, while the gate still sees every finding |
| Baseline.ReadBaseline | thyn_security_toolchain/gate.py:468-477 | reading gives no baseline for no file, and else the keys the lines hold |
| Baseline.RenderedReads | thyn_security_toolchain/gate.py:468-495 | what a rendered baseline reads back as, for any keys |
| Baseline.ReadIsPlain | thyn_security_toolchain/gate.py:468-477 | nothing that is not plain is ever read |
| Baseline.KeyReadsBackExactly | thyn_security_toolchain/gate.py:468-495 | a rendered key reads back if and only if it is plain |
| Baseline.RoundTripExactly | thyn_security_toolchain/gate.py:468-495 | a rendered baseline reads back as exactly its key set if and only if every key is plain |
| Baseline.HashKeyIsLost | thyn_security_toolchain/gate.py:468-495 | no key on one line that starts with `#` is read back |
| Baseline.RenderDependsOnSet | thyn_security_toolchain/gate.py:480-495 | order and repetition of keys do not show in the file |
| Baseline.DeletingLinesDeletesKeys | thyn_security_toolchain/gate.py:468-477 | deleting the lines of some keys deletes exactly those keys |
| Gate.Evaluate | thyn_security_toolchain/gate.py:515-537 | the one-pass loop computes the partition that the specification describes part by part |
| Gate.JudgePartitions | thyn_security_toolchain/gate.py:515-537 | with and without a baseline every finding is exactly one of known, new and below the threshold, by its key and severity, and the counts add up; fixed are, in order, exactly the keys of the baseline that no finding has |
| Gate.PartsKeepOrder | thyn_security_toolchain/gate.py:515-537 | what is new and what is known stands in the order found |
| Gate.FailsExactly | thyn_security_toolchain/gate.py:59-73 | the exit code is 1 if and only if the mode is ratchet, there is a baseline and a blocking finding is not in it |
| Gate.DeletingFixedKeysChangesNothing | thyn_security_toolchain/gate.py:515-537 | deleting any reported fixed keys leaves the other three parts and the exit code unchanged |
| Gate.BaselineOnlyShrinks | thyn_security_toolchain/gate.py:515-537 | over any history of gate and shrink rounds the key set only shrinks |
| Gate.LeftBaselineFailsForGood | thyn_security_toolchain/gate.py:59-73 | a blocking finding whose key has left the baseline fails that and every later ratchet run in which it is found |
| Gate.MeasuredThenGated | thyn_security_toolchain/ci.py:95-102 | gating just-measured findings fails exactly on a blocking finding with a key that is not plain; else nothing is new or fixed |
| Ci.GateTools | thyn_security_toolchain/ci.py:126-169 | which tools run, in what order, and what each is judged to be |
| Ci.RanExactly | thyn_security_toolchain/ci.py:111-164 | which tools run: gitleaks always, Opengrep on scannable files, osv-scanner on manifests, Trivy on infrastructure, all of them when measuring, each once and in order |
| Ci.ResultsInOrder | thyn_security_toolchain/ci.py:126-169 | one judgement for each tool that ran, in order |
| Ci.FindingsAreOfTool | thyn_security_toolchain/ci.py:126-169 | what is gated for a tool is its own parser's, with normalised messages |
| Ci.Workspace.RunCi | thyn_security_toolchain/ci.py:105-208 | the exit code is the maximum over the tools that ran, measuring writes the baselines of the tools that ran and exits 0, and measuring widens the scope first |
| Ci.Workspace.MeasureBaselines | thyn_security_toolchain/ci.py:180-194 | a new baseline for each measured tool that ran, the others untouched, gitleaks never |
| Ci.MeasuredFiles | thyn_security_toolchain/ci.py:180-194 | file by file: what measuring writes, and what it leaves |
| Ci.RunFailsExactly | thyn_security_toolchain/ci.py:95-176 | the run exits 1 if and only if it ratchets and some tool that ran has a failing finding |
| Ci.LeaksFail | thyn_security_toolchain/ci.py:95-99 | for gitleaks any finding at all fails |
| Ci.KeysAreStripped | thyn_security_toolchain/gate.py:48-52 | the key of every finding of every tool is stripped and not blank, so it is plain exactly when it neither starts with `#` nor contains a line break |
| Ci.MeasuredThenRatcheted | thyn_security_toolchain/ci.py:95-194 | measuring and then ratcheting the same reports exits 1 exactly when gitleaks ran and reported something, or a blocking key starts with `#` or contains a line break |
| Ci.HashRuleFailsAgain | thyn_security_toolchain/ci.py:95-194 | a blocking Trivy check whose id starts with `#`, measured and then ratcheted, fails the run |
| Ci.MeasuredLeavesNothingToDo | thyn_security_toolchain/ci.py:95-194 | without such a key a measured tool has no new and no fixed entry on the next run |
| Changed.ApiPrFiles | thyn_security_toolchain/changed.py:125-165 | the loop makes at most 30 requests and computes the specified answer |
| Changed.AnswerIsWhole | thyn_security_toolchain/changed.py:125-165 | whatever the server does, an answer is given exactly when a short page ends the listing in time, and then it names every current and previous file in order |
| Changed.ListingComesBackWhole | thyn_security_toolchain/changed.py:125-165 | from a server that may fail on any page, a listing comes back whole and in order exactly when it has fewer than 3000 items and every page it takes is served |
| Changed.ResolvePullScope | thyn_security_toolchain/changed.py:209-221 | the API's names, else the diff's, else ALL, sorted and without repetition |
| Changed.ScopeNarrowsExactly | thyn_security_toolchain/changed.py:209-221 | whatever the token, the repository, the server and the diff: a current or previous name of a listed file is missing from the scope if and only if the API gives no answer and the diff gives one without it; the scope is ALL exactly when neither answers |
| Changed.ScopeIsExactly | thyn_security_toolchain/changed.py:209-221 | and it names nothing else: the listed names, else the diff's, sorted and each once |
| Changed.LargePullRequestIsNarrowed | thyn_security_toolchain/changed.py:125-221 | a pull request of 3000 files or more with an empty diff is scanned for nothing |
| Changed.WrittenListReads | thyn_security_toolchain/changed.py:321-340 | a written list of paths without line ends reads back as the trimmed non-blank entries in order |
| Changed.ReadPathsAreClean | thyn_security_toolchain/changed.py:326-340 | every path read from a file is trimmed, not blank and on one line |
| Changed.ReturnsAreNewlines | thyn_security_toolchain/changed.py:333-340 | either kind of line end with a return is read as a newline |
| Changed.ListRoundTripsExactly | thyn_security_toolchain/changed.py:321-340 | a scope survives the file if and only if its paths are clean and are not a lone `all` in any mixture of cases |
| Changed.LoneAllIsReadAsAll | thyn_security_toolchain/changed.py:321-340 | a lone file named `all` is read as a full scan |
| Changed.SentinelIsNotReadFromEnv | thyn_security_toolchain/changed.py:112-122 | the sentinel file given through the environment is one path named ALL |
| Changed.EnvFileRoundTripsExactly | thyn_security_toolchain/changed.py:112-122 | given through the environment, a scope's file reads back as the scope if and only if it is a list of clean paths |
| Markers.UpsertBlock | scripts/propagate.py:111-123 | the code's sequence of reassignments computes the specified edit |
| Markers.UpsertAppends | scripts/propagate.py:119-123 | a configuration that lacks a marker is kept up to its last newlines; the hook-types line comes in front and `repos:` behind, each if and only if no line starts so, then the block; both lines are there afterwards |
| Markers.ToolchainHasOwnLines | scripts/propagate.py:119-122 | the script's own lines meet what that asks |
| Markers.UpsertReplaces | scripts/propagate.py:112-118 | the managed block is replaced and everything before its BEGIN line and after its END line is kept |
| Markers.NoStraddle | scripts/propagate.py:112-118 | no marker straddles a line boundary |
| Markers.UpsertIsIdempotentExactly | scripts/propagate.py:95-123 | a second run changes nothing if and only if the text has no marker, or both with the first END line not above the first BEGIN line |
| Markers.ToolchainLoneBeginIsNotStable | scripts/propagate.py:111-123 | on the script's own lone BEGIN marker the second run does change the text |
| Markers.ToolchainIsUsable | scripts/propagate.py:42-43 | the script's own markers and added lines meet what the laws ask of them |
| Markers.CreateIs | scripts/propagate.py:96-110 | a created configuration is its squeezed head followed by the block, whole |
| Markers.SqueezeExactly | scripts/propagate.py:110-110 | squeezing leaves no three newlines in a row, changes nothing where there are none, and drops no text |
| Markers.SqueezedExactly | scripts/propagate.py:110-110 | where that is: no three newlines stand in a row |
| Markers.CreatedIsStable | scripts/propagate.py:95-123 | run on the configuration it created, the script changes nothing |
| Pins.PrefixParts | scripts/propagate.py:46-53 | group 1 of a match is `uses:`, whitespace and one of the callees |
| Pins.PrefixOf | scripts/propagate.py:46-53 | and any whitespace between them is allowed |
| Pins.RefWithComment | scripts/propagate.py:46-53 | a ref and the one word of its comment are taken whole |
| Pins.RefWithoutComment | scripts/propagate.py:46-53 | a ref without a comment is taken alone |
| Pins.RefOfPin | scripts/propagate.py:48-48 | a written pin is taken as one ref with its comment, together with what is glued to its tag |
| Pins.NoNewMatch | scripts/propagate.py:130-130 | substituting behind a position makes no match start there |
| Pins.BumpTwice | scripts/propagate.py:130-130 | bumping to one pin and then to another is bumping to the other, less one `#` for every match glued to an empty comment |
| Pins.BumpIsIdempotentExactly | scripts/propagate.py:46-53 | a second bump changes nothing if and only if no match is glued to an empty comment |
| Pins.GluedPinIsEaten | scripts/propagate.py:46-53 | on such an input the second bump does change the text |
| Pins.ToolchainCallees | scripts/propagate.py:46-53 | the six callees of the two patterns meet what the laws ask of them |
| PinPieces.BumpKeepsTheRest | scripts/propagate.py:130-130 | taken apart at its refs, a text and its bump are the same pieces, woven with the refs of the one and with the new pin: nothing outside the refs changes |
| Pinned.BumpedIsPinnedExactly | scripts/propagate.py:126-131 | after a bump every pin, from wherever a reader starts, is the new one if and only if no match was glued to an empty comment |
| Pinned.PinnedIsStable | scripts/propagate.py:126-131 | a text whose pins are all the given one is left as it is |
| Pinned.PinnedByLine | scripts/propagate.py:46-49 | whether a text is pinned shows line by line, unless a `uses:` ends the line and a callee comes next |
| PinLines.EntangledExactly | scripts/propagate.py:46-49 | lines are entangled if and only if some line ends in `uses:` and some line starts, behind whitespace, with a callee |
| PinLines.BumpByLine | scripts/propagate.py:126-131 | a line that does not join what follows is bumped on its own |
| PinLines.BumpedLines | scripts/propagate.py:126-131 | where no lines are entangled the lines of the bump are the bumps of the lines |
| PinLines.BumpKeepsApart | scripts/propagate.py:126-131 | a bump makes no line end in `uses:` and none start with a callee, so it entangles no lines |
| Pinned.BumpKeepsLineCount | scripts/propagate.py:126-131 | a bump neither adds nor removes a line |
| Permissions.CarryCompletes | scripts/propagate.py:217-231 | afterwards the first nested permissions block lists every key the called workflow needs |
| Permissions.CarryIsIdempotent | scripts/propagate.py:217-231 | a second run changes nothing |
| Permissions.CarryInserts | scripts/propagate.py:217-231 | the edit inserts one contiguous run of lines at the end of the first block: the needed permissions that no line of it grants, each once, in the order needed and indented as its first line; nothing exactly when the block was complete |
| Permissions.GrantsExactly | scripts/propagate.py:223-223 | which key a line grants: what stands before its first colon, or all of it |
| Permissions.CarriedBlock | scripts/propagate.py:212-231 | the block found is still the first one afterwards and is its old lines followed by the added ones |
| Permissions.RequiredAreNeeds | scripts/propagate.py:203-211 | the permissions the script lists meet what the laws ask of them |
| Trigger.TriggersExactly | scripts/propagate.py:174-197 | an entry is added if and only if the first block-style `on:` has an entry for `pull_request` and none for `merge_group` at its first entry's indent |
| Trigger.EntryFollowsPullRequest | scripts/propagate.py:186-197 | the entry goes right behind the `pull_request` line and everything nested below it, at the same indent |
| Trigger.FilterIsMirrored | scripts/propagate.py:191-195 | read off the new entry, the branches filter is the one of `pull_request` |
| Trigger.CopyIsFilterExactly | scripts/propagate.py:191-195 | the copy is the first `branches` filter nested in `pull_request` with the lines nested in it, and empty exactly if there is none |
| Trigger.PatternsExactly | scripts/propagate.py:57-59 | what the patterns recognise: `on:` bare or quoted, entries, the two keys at an indent, and the branches filters below it |
| Trigger.TriggerInserts | scripts/propagate.py:174-197 | the edit inserts one contiguous run of lines that starts with `merge_group:`, or nothing |
| Trigger.TriggeredIsDone | scripts/propagate.py:174-197 | after the edit the search finds no place any more |
| Trigger.TriggerIsIdempotent | scripts/propagate.py:174-197 | a second run changes nothing |
| TriggerLaws.TriggerKeepsComplete | scripts/propagate.py:131-131 | adding the trigger, above, inside or below a permissions block, keeps complete permissions complete |
| TriggerLaws.EntryInBlock | scripts/propagate.py:163-197 | an entry that lands inside a permissions block is nested deeply enough to belong to it |
| TriggerLaws.BlockInEntry | scripts/propagate.py:191-195 | a permissions block inside the copied filter was there before, and earlier |
| Workflow.CompletedLines | scripts/propagate.py:131-131 | the two edits of the text are the two edits of its lines; the unterminated last line is kept |
| Workflow.CompletedHave | scripts/propagate.py:131-131 | what every line of a text has, and every line without a call, every line has after both edits |
| Seams.CarriedIsPinned | scripts/propagate.py:217-231 | adding the permissions leaves a text as pinned as it was, and keeps its pins, unless it comes between a `uses:` and what is called |
| Seams.TriggeredIsPinned | scripts/propagate.py:163-197 | so does adding the trigger, also with a filter that is copied, if the copy's end calls nothing new |
| Seams.CompletedIsPinnedExactly | scripts/propagate.py:131-131 | the insertions leave a text as pinned as it was, unless one comes between a `uses:` and what is called, or puts a copied `uses:` above a callee |
| WorkflowLaws.CompletedIsComplete | scripts/propagate.py:126-131 | permissions and triggers are complete after any run |
| WorkflowLaws.UpsertIsStableExactly | scripts/propagate.py:126-133 | for every input: run on its own output the edit changes nothing if and only if that output has a pin and all its pins are the new one |
| WorkflowLaws.UnentangledIsUndisturbed | scripts/propagate.py:126-133 | no call is torn or made if no lines of the caller are entangled, or nothing is to be inserted |
| WorkflowLaws.UndisturbedIsPinnedExactly | scripts/propagate.py:126-133 | for such a caller the output has a pin, and all its pins are the new one if and only if no pin was glued to an empty comment |
| WorkflowLaws.UpsertIsIdempotentExactly | scripts/propagate.py:126-133 | for a caller no call of which an insertion tears or makes: a second run changes nothing if and only if no pin is glued to an empty comment |
| WorkflowLaws.UpsertSettles | scripts/propagate.py:126-133 | what is left is pinned and has complete permissions and triggers |
| WorkflowLaws.UpsertOnlyInserts | scripts/propagate.py:126-131 | the lines of the result are those of the bumped text with two contiguous runs put in, the first of which is exactly the permissions that were absent |
| WorkflowLaws.UpsertedPinsReadBack | thyn_security_toolchain/verify.py:43-54 | every gate call that the reader finds in the result has exactly the given commit and tag |
| WorkflowLaws.UpsertedPinIsRead | thyn_security_toolchain/verify.py:43-54 | and a pin on a line that is no comment is read, unless it lies inside an earlier call; as the line's first call if no call comes before it, and as its only one if no other `uses:` is there |
| Crossing.TornIsNotStable | scripts/propagate.py:126-133 | a caller whose call crosses a line loses its pin to an inserted permission, and the second run renders the template |
| PinReader.ReadCallerPins | thyn_security_toolchain/verify.py:43-54 | the loops over lines and matches compute the calls of the lines that are no comments |
| PinReader.CallsAreOfLines | thyn_security_toolchain/verify.py:43-54 | the calls are those of the lines that do not start, behind blanks, with `#` |
| PinReader.CallIsPin | thyn_security_toolchain/verify.py:20-23 | a call of a known workflow is a match of the script's pattern, and its ref starts where group 1 ends |
| PinReader.PinsReadBack | thyn_security_toolchain/verify.py:43-54 | in a pinned text every call of a known workflow is read with the pin's commit and tag |
| PinReader.PinIsRead | thyn_security_toolchain/verify.py:43-54 | in a pinned text a pin on a line that is no comment is read, unless it lies inside an earlier call that was found |
| PinReader.FirstIsReached | thyn_security_toolchain/verify.py:43-54 | a pin with no call, or no other `uses:`, before it lies inside no earlier call |
| Verify.CheckCalls | thyn_security_toolchain/verify.py:88-105 | the loop reports the problems of the calls, in order |
| Verify.ChecksPassExactly | thyn_security_toolchain/verify.py:88-105 | no problem is reported if and only if every call is pinned to a commit with the toolchain's tag and agrees with the expected ref |
| Verify.ProblemsExactly | thyn_security_toolchain/verify.py:88-105 | which problem is reported of which call |
| Verify.CommitExactly | thyn_security_toolchain/verify.py:24-24 | what a commit is |
| Verify.UpsertedCallerPassesExactly | thyn_security_toolchain/verify.py:81-105 | a caller just written passes, whether its commit, its tag or nothing is expected, if and only if its calls of other toolchain workflows do |
| Verify.UpsertedRevReadsBack | thyn_security_toolchain/verify.py:35-40 | the tag written into the pre-commit block is the revision read back, if nothing above the block names the repository |
| Verify.QuotedTagIsRead | thyn_security_toolchain/verify.py:19-19 | a quoted revision reads as the same tag |
| Verify.UpsertedRevIsReadExactly | thyn_security_toolchain/verify.py:35-40 | wherever the repository is named: the revision read back is the one that the text above the block shows, if it shows one, and else the tag written |
| Verify.OtherRevIsRead | thyn_security_toolchain/verify.py:35-40 | a configuration above whose block the repository stands with another revision reads as that one |
| AutoMerge.AutoMergeIsStable | scripts/propagate.py:139-160 | once rendered, the auto-merge caller is rendered alike again, whatever the fleet file says by then |
| AutoMerge.RenderedAsChosen | scripts/propagate.py:139-160 | the first rendering follows the fleet file, and an adopted caller that shows a choice keeps it |
| AutoMerge.TemplateShowsChoice | scripts/propagate.py:136-160 | a template with one majors line is read back as the choice it was rendered with, also across the blank lines that the pattern may skip |
| Plan.MakePlan | scripts/propagate.py:234-271 | the code appends changes and checks them one by one as specified |
| Plan.PlanIsMadeExactly | scripts/propagate.py:263-271 | a plan is made if and only if nothing is said about safe paths or every path that would change starts with one; else the first that does not is named |
| Plan.AppliedPlan | scripts/propagate.py:234-271 | with the changes written each of the three files is what was planned and no other file has changed |
| Plan.PlanIsFixpointExactly | scripts/propagate.py:234-271 | for every repository: planning again finds nothing to do if and only if the configuration had its markers in order and the planned caller has a pin and only new ones |
| Plan.WorkflowIsFineExactly | scripts/propagate.py:126-133 | for a caller no call of which an insertion tears or makes, the planned caller has its pins in order if and only if no pin was glued to an empty comment |
| Templates.CallerIsSettled | scripts/propagate.py:126-133 | a caller rendered from a template with one call, the permissions needed and a `merge_group` entry is what the edits would make of it |
| Plan.ReleaseIsReady | scripts/propagate.py:95-160 | a release made from such a template, a configuration template without markers and an auto-merge template with one majors line meets all that the fixpoint asks |
| Plan.NewRepositoryIsFixpoint | scripts/propagate.py:234-271 | at the paths the script writes: after one plan for a repository without configuration and caller the next plan is empty |

## Left out

- Scanner subprocesses, `git`, `gh` (with `resolve_tag` and the pull requests of `propagate`), `urllib`, JSON and tar decoding: their replies are inputs, and reports and archives are decoded data.
- Malformed reports (`_report_shape`, `ReportError`) and `_rel`: a report is given as the values the parsers read, and a path as the one reported.
- `cli.py`, `annotate`, `markdown_summary`, notes, GitHub outputs and log lines: printing and argument plumbing.
- The Dependabot decide and sweep logic: its shell is not part of this model.
- `lock.validate_lock`, `_platform.py` and `repo.py`: field checks; the installers start from a lock that is valid.
- `from_github_event`, `_git_diff` and `merge_group_pull_number` in `changed.py`: what they hand to `_pull_scope` is an input, so the diff may be any list of names.
- `MANIFEST_RE`, `IAC_RE`, `opengrep_targets` and the extension tables: predicates on paths, given as parameters.
- Two `rules_path` installers at once: one can delete the directory under the other's marker, so only one installer with crashes is modelled.
- The other checks of `verify_repo`: the hook types, and the two cross-checks between hooks and callers.
- Template prose: a template is a text with its one pin, its permissions and triggers, its one majors line or its one marker pair; what else it says is left open.
- Ci.Workspace.RunCi: the four blocks of `run_ci` are one loop over the tools in their order; code-scanning uploads are modelled in `sarif_laws.dfy` instead.
- Baseline.RenderedReads: the wording of the header is left open; it is any number of one-line comments.
- Scanners.ParseOsvJson: scores are real numbers, and a score that does not parse is absent.
- PinReader.ReadCallerPins: `\w` in a workflow's name covers ASCII letters, digits and the underscore.
- WorkflowLaws.UpsertIsIdempotentExactly: asks that no insertion tears or makes a call; for a caller where one does, the condition is the one of `WorkflowLaws.UpsertIsStableExactly`, which reads the output.
- SarifLaws.UploadHoldsRealResults: asks for unique rule ids, which SARIF does not promise; `SarifLaws.UploadIsUntouchedExactly` says what happens without them.
- Permissions.CarryInserts: the indent of the first line of the block is taken as its leading blanks, which is what stripping its first piece leaves, since the pattern has just matched blanks and then a character that is no whitespace.
