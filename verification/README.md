# Verified models of the release and documentation scripts

This project models, in Dafny 4.11, the algorithms inside the release and documentation scripts of the repository and
proves what they are there to guarantee. `dafny verify dfyconfig.toml` checks all of it.

The scripts decide whether a release may be made and what is published with it, so their guarantees span whole graphs,
whole files and whole runs:

* **Dependency graphs** (`Digraph`, `TopologicalOrder`, `DependencyCycles`, `AcyclicityChecks`, `SecurityGate`,
  `SecurityGateMeaning`, `ProjectGate`, `ProjectGateMeaning`). Tarjan's algorithm with its explicit stack is exact; two
  depth-first checks agree with it and with the existence of a topological order; the edge-by-edge checks of the security
  gate hold along whole paths; the closure over blockers is sound and complete on cyclic graphs.
* **PNG files** (`Division`, `Adam7`, `PngFormat`, `PngGrammar`, `PngValidation`, `PngMeaning`, `PngDensity`,
  `PngDensityMeaning`). The validator accepts exactly the files that have the form it checks: the rules of RFC 2083 on
  signature, chunk layout, header, palette, image data and end, and the script's own limit, but neither the bound on chunk
  lengths nor the order of ancillary chunks. The rewriter of the density chunk keeps such files valid, with the same
  pixels. The last comparison of the filter scan is proved dead.
* **Bootstrap** (`ResponseHandoff`, `Download`, `Json`, `Receipts`, `BootstrapRun`). A two-thread handoff as a state
  machine over all interleavings, and the receipt file over all runs with a failure possible at every step.
* **Software bills of materials** (`CycloneDx`, `SbomSanitizing`, `SbomSanitizingMeaning`, `SbomGraph`, `SbomOrder`,
  `SbomComponents`, `SbomMerging`, `SbomComponentLaws`, `SbomCanonical`, `SbomMeaning`, `SbomReordering`, `SbomExamples`,
  `DesktopSbom`, `DesktopAggregate`, `DesktopMeaning`, `DesktopDocument`). Canonicalisation is a graph quotient that is
  idempotent and does not depend on order; the combined desktop document is a disjoint union.
* **Publication and mirroring** (`Publication`, `WikiPaths`, `WikiRemoval`, `WikiSync`, `WikiSyncMeaning`, `WikiSyncLaws`,
  `WikiSyncExamples`). All-or-nothing publication with rollback, and a manifest-driven mirror with frame and idempotence.
* **Text and rules** (`LinkRewriter`, `FragmentLinks`, `MarkdownLinks`, `MarkdownForm`, `RuleDeduplication`,
  `RuleMeaning`). A rewriter of Markdown links that changes nothing but destinations, and rules without repetitions.

The methods follow the scripts and are proved against functions that share their helpers. What those functions say is
fixed a second time, without these helpers: the modules whose names end in `Meaning`, `FragmentLinks` and `MarkdownForm`
say of the characters, bytes, fields or issues what is accepted and what comes out, and prove that it is the same.

`Wrappers` and `Sorting` hold what they share. Loops and state changes of the scripts are methods, with the functions that
specify them next to them; where a script changes an object or a file, a class does (`Bootstrap`, `Destination`,
`FileSystem`, `Wiki`). Exceptions are results: an error code, or the outcome `Broken` for an error of the operating system.

Five promises do not hold of the code as they are made. In each case the code is modelled as it is, and the exact
condition is proved:

* The order of the components can show in a canonical SBOM. The bodies of duplicate project components are compared with
  Python's `==`, for which `True`, `1` and `1.0` are equal, and the first one is kept
  (`SbomExamples.OrderCanShow`, `SbomReordering.OrderMattersOnlyForSpellings`).
* The rollback of the terminal script restores contents but not modes (`Publication.TerminalLosesModes`,
  `Publication.TerminalRestoresIff`).
* An image stays published when its temporary file cannot be removed after the replacement (`Publication.ImageStays`,
  `Publication.FailureRestores`). Nothing else is left behind, because the manifest refuses repeated outputs
  (scripts/docs_screenshot_manifest.py:452-458); without that check a rollback could not restore what was published twice
  (`Publication.RestoredIffDistinct`).
* The wiki is not a mirror of its source, and every run reports a change, when a page links to a page `.md` that rewriting
  changes: `.md` is then an asset too, and overwrites the page (`WikiSyncLaws.PagesMirrored`, `WikiSyncLaws.NextRun`,
  `WikiSyncLaws.QuietIffDotMd`, `WikiSyncExamples.DotMdIsNotMirrored`).
* For a source read from a tree, synchronisation ends with an error of the operating system, in the middle of its
  changes, in exactly two cases: the directory of a stale asset is missing, or is cleared by the stale assets before it
  (`WikiRemoval.RemovableIffDirectoriesLast`, `WikiSyncExamples.EmptiedDirectoryStops`); or an asset lies in a directory
  with the name of the manifest (`WikiSyncLaws.ConflictIffBelowManifest`, `WikiSyncExamples.ManifestIsInTheWay`).

## Model

| member | source | states |
|---|---|---|
| DependencyCycles.DependencyCycleNodes | scripts/verify_release_project.py:829-873 | For every finite edge set, self-loops included, the result lists in ascending order exactly the nodes with a non-empty path back to themselves; every popped component is one whole strongly connected component, and the components cover all nodes. Termination is proved |
| DependencyCycles.Visit | scripts/verify_release_project.py:843-868 | One recursive visit keeps the invariant of index, stack, on-stack set, indices and lowlinks, visits the node, leaves the stack below untouched, and leaves a lowlink that is attained by a node on the stack |
| DependencyCycles.Pop | scripts/verify_release_project.py:860-868 | The popping loop takes exactly the nodes from the given one upwards off the stack and the on-stack set, and returns them |
| DependencyCycles.RootIsComponent | scripts/verify_release_project.py:858-866 | When all successors of a node have been looked at and its lowlink equals its index, the stack from it on is one whole strongly connected component, whose nodes lie on a cycle exactly when there are several or the node depends on itself |
| DependencyCycles.PoppedKeepsInv | scripts/verify_release_project.py:858-868 | Popping that component, and marking its nodes under this condition, completes the visit: the invariant holds again and the stack is as before the call |
| DependencyCycles.BackArrowKeepsExploring | scripts/verify_release_project.py:855-856 | Taking the index of a successor that is on the stack keeps the lowlink within reach and at least as small as any index seen |
| DependencyCycles.CallKeepsExploring | scripts/verify_release_project.py:852-854 | Taking the lowlink of a visited successor does the same after the recursive call |
| DependencyCycles.BuildAdjacency | scripts/verify_release_project.py:831-834 | The adjacency map has an entry for both ends of every edge and an arrow from each blocker to each issue it blocks, and nothing else |
| AcyclicityChecks.PolicyGraphIsAcyclic | scripts/verify_release_project.py:201-223 | The depth-first check answers true exactly when no node lies on a cycle |
| AcyclicityChecks.SecurityPolicyGraphIsAcyclic | scripts/create_release_evidence.py:303-324 | So does the second implementation, over pairs |
| AcyclicityChecks.CheckThreeWays | scripts/verify_release_project.py:829-873 | On the same dependencies both depth-first checks answer true exactly when the cycle search returns nothing, exactly when a topological order exists |
| AcyclicityChecks.FinishKeepsSound | scripts/verify_release_project.py:219-220 | Moving a node from the visiting to the visited set keeps the visited part closed and free of cycles |
| TopologicalOrder.AcyclicIffOrder | scripts/verify_release_project.py:201-223 | A finite graph has no cycle exactly when its nodes can be listed so that every arrow goes forward |
| SecurityGate.VerifySecurityDependencyGate | scripts/verify_release_project.py:876-1041 | The gate passes exactly when all of its edge-by-edge conditions hold; `SecurityGateMeaning.GateIff` says these of the issues and the policy alone; on success the report lists the checked issues in ascending order |
| SecurityGateMeaning.GateIff | scripts/verify_release_project.py:876-1041 | Said of the issues and the policy without any of the tables of the code: the gate passes exactly when every issue that the policy concerns is there with a known iteration, state and listed blockers, every required one has its iteration and owner, required dependencies are there, nothing is cyclic, no blocker stands in a later place of the iteration order than what it blocks, and no closed issue has an open blocker |
| SecurityGateMeaning.PositionIsIndex | scripts/verify_release_project.py:897-899 | The position of an iteration is its index in the order of the policy |
| SecurityGateMeaning.PathsKeepOrder | scripts/verify_release_project.py:999-1016 | When the gate passes and a dependency path leads from an issue at place i of the iteration order to one at place j, then i is at most j; and a closed issue has only closed ones before it on its paths |
| SecurityGateMeaning.PlanExists | scripts/verify_release_project.py:976-1007 | Then all issues that the policy concerns can be put in one order, without repetition, in which no issue at a later place of the iteration order comes before one at an earlier place, and each comes after all that block it |
| SecurityGate.CollectIssues | scripts/verify_release_project.py:769-797 | Accepts exactly when item identifiers are distinct and no number of the repository repeats, and then indexes the issues of the repository by number |
| SecurityGate.ReadIterations | scripts/verify_release_project.py:897-916 | Accepts exactly when every checked issue has both fields, an iteration the policy knows and a state it knows, and records those iterations |
| SecurityGate.CheckOwners | scripts/verify_release_project.py:918-944 | Accepts exactly when every required issue has its iteration, complete owners and its required owner up to case |
| SecurityGate.GatherEdges | scripts/verify_release_project.py:954-974 | Accepts exactly when all blockers parse, are listed once and agree with the Project about states, and returns exactly the edges between checked issues |
| SecurityGate.CheckRequired | scripts/verify_release_project.py:980-997 | Accepts exactly when every required dependency is there, and tells a reversed one from a missing one |
| SecurityGate.CheckOrder | scripts/verify_release_project.py:999-1016 | Accepts exactly when no blocker is in a later iteration and no closed issue has an open blocker |
| SecurityGate.CheckEdges | scripts/verify_release_project.py:976-1016 | Accepts exactly when there is no cycle, every required edge is there and none is reversed, no blocker is in a later iteration and no closed issue has an open blocker |
| SecurityGate.PathsKeepIterations | scripts/verify_release_project.py:999-1007 | When the gate passes, along every dependency path the position of the iteration does not fall; by `SecurityGateMeaning.PositionIsIndex` the position is the index in the order |
| SecurityGate.PathsKeepClosed | scripts/verify_release_project.py:1009-1016 | When the gate passes, every transitive blocker of a closed checked issue is closed |
| SecurityGate.LinearPlan | scripts/verify_release_project.py:976-1007 | When the gate passes, the checked issues have a linear order that respects the positions of the iterations, every required dependency and every actual one between them |
| ProjectGate.ValidateCleared | scripts/verify_release_project.py:472-483 | Accepts exactly a closed issue with the gate's status and validation, and names the first of the three that fails |
| ProjectGate.VerifyDependencies | scripts/verify_release_project.py:732-758 | The closure over blockers, cycles allowed: success visits the issue and leaves all visited blockers checked; failure proves that an issue with a bad blocker is reachable. Termination is by the unvisited issues |
| ProjectGate.VerifyProjectGate | scripts/verify_release_project.py:716-761 | Returns normally exactly when every configured priority is present, every selected issue is cleared, and every issue reachable in the graph of the closure is cleared with complete pagination and only closed blockers; `ProjectGateMeaning.GateIff` says this of the issues alone |
| ProjectGateMeaning.ArrowIff | scripts/verify_release_project.py:745-758 | For two issues of the iteration, the closure follows an arrow from the first to the second exactly when some blocker of the first has the repository and the number of the second |
| ProjectGateMeaning.GateIff | scripts/verify_release_project.py:716-761 | Said of the list of issues without its index: the gate passes exactly when every configured priority is there and on every chain of issues from a selected one, each a blocker of the one before by repository and number, every issue is closed with the status and the validation of the gate, has all its blockers listed, and they are all closed |
| Adam7.PassSizeCounts | scripts/docs_screenshot_manifest.py:112-113 | The pass size is the number of coordinates that the pass visits |
| Adam7.OnePassPerPixel | scripts/docs_screenshot_manifest.py:62-70 | Every pixel belongs to exactly one of the seven passes |
| PngMeaning.PassIs | scripts/docs_screenshot_manifest.py:62-70 | The seven passes of the table visit exactly the pixels that the 8 by 8 pattern of the standard (RFC 2083, section 2.6) numbers 1 to 7 |
| Adam7.AreasSumToImage | scripts/docs_screenshot_manifest.py:62-70 | The areas of the seven passes sum to width times height |
| Adam7.Interleave | scripts/docs_screenshot_manifest.py:62-70 | Along an axis, each later pass visits exactly the coordinates between those of the earlier ones, none twice, until the last visit all |
| PngFormat.PngIffTiles | scripts/docs_screenshot_manifest.py:145-167 | A file encodes a list of chunks exactly when it has the signature and its bytes tile into that list with matching lengths and CRCs |
| PngGrammar.WellFormedIffByPosition | scripts/docs_screenshot_manifest.py:134-221 | Accepting chunk by chunk means, by position: the header first and only first, at most one legal palette and it before the pixels and present for colour type 3, one unbroken run of pixels within the limit, no unknown critical chunk, an empty end chunk last and only last |
| PngMeaning.GrammarIff | scripts/docs_screenshot_manifest.py:134-221 | For a file that is cut into chunks, these rules are the rules on its bytes: what stands at which place in the header, which chunk types stand where, and how long the palette, the image data and the end are |
| PngValidation.Admit | scripts/docs_screenshot_manifest.py:169-218 | One round of the chunk loop accepts a chunk exactly when it may follow those read so far, and keeps the flags in step with them |
| PngValidation.ScanChunks | scripts/docs_screenshot_manifest.py:134-221 | The chunk loop terminates and accepts exactly the files whose chunks tile the whole input and obey the grammar, and returns their header and image data |
| PngValidation.ScanlineLayouts | scripts/docs_screenshot_manifest.py:116-131 | The layouts are those of the passes that have pixels, in order, with their rows and bytes per row |
| PngValidation.ScanlinesHoldImage | scripts/docs_screenshot_manifest.py:116-131 | Interlaced or not, those scanlines have room for every sample of the width times height pixels, and beside it only for one filter byte and less than a byte of padding each; for no padding when pixels fill whole bytes. The bits of a pixel are the depth times the number of channels of the code |
| PngMeaning.ChannelsAre | scripts/docs_screenshot_manifest.py:54 | For every colour type the number of channels is what its bits say: one with a palette, otherwise three with colour and one without, and one more with alpha |
| PngMeaning.ScanlinesHoldSamples | scripts/docs_screenshot_manifest.py:116-131 | So, for every allowed header, the scanlines hold that number of samples at its depth for every pixel |
| PngMeaning.ScreenshotSize | scripts/docs_screenshot_manifest.py:228-235 | An RGB file of eight bits without interlacing decodes to height times (3 times width plus 1) bytes, an RGBA file to height times (4 times width plus 1) |
| PngValidation.CheckFilters | scripts/docs_screenshot_manifest.py:253-260 | The scan accepts exactly when every scanline begins with one of the five filter types; its reads stay inside the decoded bytes, and its final cursor comparison cannot fail |
| PngValidation.DecodePixels | scripts/docs_screenshot_manifest.py:228-252 | Accepts exactly when the image data is one complete zlib stream of exactly the size of the scanlines |
| PngValidation.ValidatePngBytes | scripts/docs_screenshot_manifest.py:134-260 | Accepts exactly the encodings of chunk lists that obey the grammar and whose pixels decode; `PngMeaning.PngIff` says this of the bytes |
| PngMeaning.PngIff | scripts/docs_screenshot_manifest.py:134-260 | Said of the bytes alone: a file is accepted exactly when it has the signature, is cut without rest into length, type, contents and CRC, obeys the rules on header, palette, image data and end, and its image data inflates to exactly one filter byte of 0 to 4 and the bytes of the samples for each line of each pass that has pixels |
| PngDensity.RewriteDensity | scripts/docs_terminal_capture.py:927-945 | On the bytes of any list of chunks, the unchecked chunk walk writes the bytes of the list with one new density chunk after the header and the old ones dropped |
| PngDensityMeaning.RewrittenFile | scripts/docs_terminal_capture.py:927-945 | For an accepted file these are its first 33 bytes, one density chunk with 5669 pixels per metre on both axes, and all its other chunks byte by byte as they stood, in order, the old density chunks left out |
| PngDensity.RewriteKeepsValid | scripts/docs_terminal_capture.py:927-945 | A valid list of chunks stays valid, with the same header and image data |
| PngDensity.OneDensity | scripts/docs_terminal_capture.py:928-939 | Afterwards there is exactly one density chunk, straight after the header, hence before the pixels |
| PngDensity.OthersSurvive | scripts/docs_terminal_capture.py:927-945 | Every other chunk survives unchanged and in order |
| PngDensity.RewriteTwice | scripts/docs_terminal_capture.py:927-945 | Rewriting twice is rewriting once |
| PngDensity.WalkChunks | scripts/docs_screenshot_manifest.py:743-759 | The second walk, without bounds checks, finds exactly the density chunks, their misplacement and the animation chunks of a valid file |
| PngDensity.ImageQualityFailures | scripts/docs_screenshot_manifest.py:715-778 | Reports too large, wrong encoding, width, resolution and animation exactly when they apply |
| PngDensityMeaning.MeasuredMeans | scripts/docs_screenshot_manifest.py:743-778 | For an accepted file, said of its bytes: the width is reported above 1000 and, unless narrow ones are allowed, below 750; animation for a chunk of one of three types; the resolution as missing when there is no density chunk, and as wrong when one does not state 5669 or 5670 pixels per metre on both axes |
| PngDensity.NoResolutionFailure | scripts/docs_screenshot_manifest.py:764-777 | Whatever is reported of a rewritten valid file, it is neither a missing nor a wrong resolution |
| PngDensity.PublicationImage | scripts/docs_terminal_capture.py:920-945 | For every file that validation accepts, the rewritten file is accepted too, and no encoding or resolution failure is reported for it |
| ResponseHandoff.NeverReturnedAndClosed | scripts/bootstrap_uv.py:603-655 | In every interleaving a response is never both returned and closed, and never closed twice |
| ResponseHandoff.DeliveredOrClosed | scripts/bootstrap_uv.py:621-655 | Once both threads have finished, an opened response has been returned or closed, exactly one of the two |
| ResponseHandoff.NeverReturnedLate | scripts/bootstrap_uv.py:640-650 | After cancellation or a failed deadline check a response is never returned |
| ResponseHandoff.ReturnedInTime | scripts/bootstrap_uv.py:647-655 | A response is returned only by a step taken before the deadline |
| ResponseHandoff.EndingIsRight | scripts/bootstrap_uv.py:645-655 | The caller reports the deadline only after it, and otherwise what the worker found |
| ResponseHandoff.NeverStuck | scripts/bootstrap_uv.py:638-644 | In every interleaving one of the threads can take a step exactly until both have finished |
| ResponseHandoff.FinishedAfterDeadline | scripts/bootstrap_uv.py:638-651 | From any state of a run after the deadline, however the threads go on and whatever wakes the caller up, they take at most a fixed number of steps, and where they can go on no further both have finished |
| ResponseHandoff.CanFinishAfterDeadline | scripts/bootstrap_uv.py:638-651 | And that many steps are enough for both to finish, whatever state the deadline finds them in |
| Download.Destination.ReadAll | scripts/bootstrap_uv.py:729-751 | The loop succeeds exactly when the reads add up to the expected size without an empty, failed or oversized read, and the file then holds what was read |
| Download.ReceivedIff | scripts/bootstrap_uv.py:729-751 | Those reads: each is asked for at most a mebibyte and at most one byte more than is missing, brings at least one byte and no more than is missing, and after the last nothing is missing |
| Download.Destination.Fetch | scripts/bootstrap_uv.py:705-757 | Success leaves a file of exactly the expected size; any failure after the size check leaves no file at all, even where one was before |
| Receipts.BuiltReceiptIsCanonical | scripts/bootstrap_uv.py:971-1025 | Every success receipt built from a validated policy is a canonical success receipt; what stands in it is said by `Receipts.BuiltReceiptStates` |
| Receipts.BuiltReceiptStates | scripts/bootstrap_uv.py:971-1025 | Field by field, as a path into the receipt and a path into the policy: the digest of the archive is the policy's digest of the archive for the platform, that of the binary the policy's digest of the binary, that of the verifier the one of the GitHub CLI archive; likewise versions, names, source, policy digest and time; and no field is there beside these |
| Receipts.CanonicalIff | scripts/bootstrap_uv.py:1340-1412 | The check accepts exactly receipts with these fields, the fixed names, versions and source, archive names that belong to the platform stated, digests of 64 lower-case hexadecimal digits, and a time in UTC |
| BootstrapRun.Bootstrap.WriteReceipt | scripts/bootstrap_uv.py:1279-1292 | The receipt file is replaced as a whole or not at all |
| BootstrapRun.Bootstrap.InstallUv | scripts/bootstrap_uv.py:1666-1677 | uv is run and installed only after its digests matched and the success receipt was written; it succeeds exactly when every step of this part does |
| BootstrapRun.Bootstrap.UseDownloaded | scripts/bootstrap_uv.py:1604-1677 | The download branch succeeds exactly when every step and digest check of it passes, cleaning up included |
| BootstrapRun.Bootstrap.UseCached | scripts/bootstrap_uv.py:1590-1602 | The cached binary is run only after its digest matched and the receipt was written |
| BootstrapRun.Bootstrap.WriteFailureReceipt | scripts/bootstrap_uv.py:1295-1308 | Errors about the receipt itself are raised again with the file untouched; any other error is written into the receipt with its code |
| BootstrapRun.Bootstrap.Run | scripts/bootstrap_uv.py:1555-1681 | With a failure possible at every step: success exactly when every step of the branch taken passes and every file on it has the digest that the policy gives for the platform, and otherwise the error of the first that does not; a normal return leaves a canonical success receipt that states, field by field, what the policy and the identity of the run give; an error not about the receipt leaves a failure receipt with its code, which states the same otherwise once the policy has passed; other errors leave the old file or that success receipt; no tool runs and no success is written before the digests are the policy's, and uv not before the receipt is written |
| BootstrapRun.Bootstrap.RecordPostPreflightFailure | scripts/bootstrap_uv.py:1415-1445 | Succeeds exactly for a permitted category and a readable canonical success receipt that can be written, which it replaces by its own failed form; otherwise the file is unchanged, and the error says why |
| BootstrapRun.FailureIsFinal | scripts/bootstrap_uv.py:1340-1412 | A failure receipt is never a canonical success receipt, so it can never be converted again |
| BootstrapRun.FailureStates | scripts/bootstrap_uv.py:1415-1445 | The failed form of a receipt states the same as the receipt in every field but the status and the failure category |
| BootstrapRun.HonestRuns | scripts/bootstrap_uv.py:1555-1681 | In a log where every digest match is one of the file with the digest that the policy gives for it, a tool has been run only if the digest of its archive or binary is the policy's for the platform, and success has been written only then |
| BootstrapRun.Bootstrap.BootstrapCommand | scripts/bootstrap_uv.py:1795-1814 | When the outputs cannot be written after a successful run, the receipt it left can always be turned into that failure |
| SbomSanitizing.Sanitize | scripts/generate_sbom.py:70-99 | Accepts exactly documents whose reference lists are well-formed and whose other strings are no local paths, and removes exactly the recognised local distributions |
| SbomSanitizingMeaning.CleanableIff | scripts/generate_sbom.py:70-99 | Said of the values: accepted exactly when every string that is looked at is no file URL and does not begin with a slash, two backslashes or a drive, where all is looked at except the recognised local distributions in reference lists, and these lists are absent, null or lists of objects |
| SbomSanitizingMeaning.StrippedIsCleaned | scripts/generate_sbom.py:70-99 | The result is the document at every depth, except that its reference lists are subsequences that leave out exactly the objects with the three fields, comment and type of a local distribution and a file URL |
| SbomSanitizing.SanitizingIsIdempotent | scripts/generate_sbom.py:70-99 | No string value of the result is a local path, and sanitising the result accepts it and changes nothing |
| SbomGraph.CollectNodes | scripts/generate_sbom.py:207-233 | The loop over the dependency nodes accepts exactly well-formed nodes, and its sets of edges are those of the merged graph |
| SbomGraph.CanonicalizeDependencies | scripts/generate_sbom.py:201-254 | Accepts exactly well-formed nodes that cover the components and whose edges end at components, and writes the merged graph in order |
| SbomGraph.EdgesAreAliasImages | scripts/generate_sbom.py:218-233 | The merged edges are exactly the images of the given edges under the aliases, without self-edges |
| SbomGraph.PathsSurvive | scripts/generate_sbom.py:218-233 | Every given dependency path is, under the aliases, a possibly empty path of the merged graph |
| SbomGraph.ReadsBack | scripts/generate_sbom.py:247-254 | Reading the written nodes again, with names that are no aliases, accepts them and gives the same graph |
| SbomOrder.SameNodesSameGraph | scripts/generate_sbom.py:201-254 | Permuting the dependency nodes or their edge lists changes neither acceptance nor the graph |
| SbomComponents.CanonicalizeComponents | scripts/generate_sbom.py:185-198 | Accepts exactly objects with usable, pairwise distinct references |
| SbomComponents.CanonicalizeProjectComponent | scripts/generate_sbom.py:121-182 | Accepts exactly when there is a project component and all of them have the version, type and package URL and equal bodies; returns the others with one canonical component, and the aliases |
| SbomComponents.RemainingAreTheOthers | scripts/generate_sbom.py:180 | Removing the project components by Python equality removes them and nothing else |
| SbomMerging.SortComponents | scripts/generate_sbom.py:292-298 | The check of distinct references accepts exactly when they are, and the components come in the order of their references |
| SbomMerging.DistinctIffReferenceFree | scripts/generate_sbom.py:293-298 | The merged references are distinct exactly when no other component already has the project's |
| SbomComponentLaws.ComponentsReadBack | scripts/generate_sbom.py:121-182 | The merged components are accepted again, with no alias that changes a name, and listed as they were |
| SbomComponentLaws.PermutedCatalogue | scripts/generate_sbom.py:121-182 | Permuting the components keeps aliases and components, except that the project component may be another of its Python-equal spellings |
| SbomComponentLaws.CatalogueIffSameBodies | scripts/generate_sbom.py:159-180 | All orders give the same components exactly when all project components are written alike apart from reference and package URL |
| SbomCanonical.CanonicalizeSbom | scripts/generate_sbom.py:257-307 | Accepts exactly documents that meet every condition of the passes, and returns the assembled form; the second sanitising refuses exactly when the project's own names are local paths; `SbomMeaning.AcceptsIff` and `SbomMeaning.ResultIs` say this of the document |
| SbomMeaning.AcceptsIff | scripts/generate_sbom.py:257-307 | Said of the document: accepted exactly when it is a clean CycloneDX document whose components have distinct names, whose project components are there with the version, type and package URL and equal bodies, whose project name no other component has, whose nodes are well-formed and have exactly the components as their images, every edge ending at one, and whose own names are no local paths |
| SbomMeaning.ResultIs | scripts/generate_sbom.py:257-307 | The result is that document without the particulars of the run and the local distributions, every other field as it was; its components are those of other projects as they were and the first of the project under its normalised name and package URL, in the order of their names; its nodes are one for each component, in order, with exactly the images of the given edges that do not come back to where they start, in order and left out when there are none |
| SbomMeaning.EqualIff | scripts/generate_sbom.py:156-180 | Python equality of two JSON values is equality at every depth up to the spelling of numbers and booleans |
| SbomCanonical.Assemble | scripts/generate_sbom.py:284-304 | Merging, sorting and the dependency pass together accept exactly what can be assembled |
| SbomCanonical.CanonicalFormIsFixed | scripts/generate_sbom.py:257-307 | Canonicalising an accepted document twice is canonicalising it once: the result is accepted and left as it is |
| SbomCanonical.FormHasNoLocalPaths | scripts/generate_sbom.py:306-307 | No string value of the result is a local path |
| SbomSanitizingMeaning.NoLocalPathsIff | scripts/generate_sbom.py:49-52 | That means, for every string value at any depth: it is no file URL and does not begin with a slash, two backslashes, or a letter, a colon and a slash or backslash |
| SbomCanonical.ResultIsQuotient | scripts/generate_sbom.py:201-254 | The dependencies of the result are exactly the alias images of the given ones without self-edges, and both ends are components of the result |
| SbomCanonical.PathsReachTheResult | scripts/generate_sbom.py:201-254 | Every dependency path of the input is, under the aliases, a dependency path of the result between the aliased ends |
| SbomReordering.OrderDoesNotMatter | scripts/generate_sbom.py:257-307 | Permuting components, dependency nodes or edge lists changes neither acceptance nor, up to Python equality, the result; and not the result at all when the project components are written alike |
| SbomReordering.OrderMattersOnlyForSpellings | scripts/generate_sbom.py:156-180 | For an accepted document every order gives exactly the same result if and only if all project components are written alike apart from reference and package URL |
| SbomExamples.OrderCanShow | scripts/generate_sbom.py:257-307 | A concrete accepted document with two project components, one with a flag true and one with 1, and a reordered one that is accepted with another result |
| DesktopSbom.TargetComponent | scripts/assemble_desktop_release.py:313-347 | A component tree is accepted exactly when all its references and properties are well-formed and its own and nested references are pairwise distinct; it returns the copy for the target and its references |
| DesktopSbom.TargetChildren | scripts/assemble_desktop_release.py:331-346 | The loop over nested components accepts exactly trees without a reference that is repeated among them or before them |
| DesktopSbom.TargetsDisjoint | scripts/assemble_desktop_release.py:307-310 | References of different targets never collide, and those of one target only where they were the same before |
| DesktopSbom.CopiedReferences | scripts/assemble_desktop_release.py:313-347 | The copy has the same references in the same places with the target before each |
| DesktopAggregate.TargetDependencies | scripts/assemble_desktop_release.py:519-560 | Accepts exactly well-formed nodes with distinct references all of whose edges stay among the components of the target, and writes both edge lists of each |
| DesktopAggregate.TargetSbom | scripts/assemble_desktop_release.py:483-560 | Accepts exactly a well-formed SBOM of the release version; the check that the root was preserved cannot fail |
| DesktopAggregate.AggregateSboms | scripts/assemble_desktop_release.py:446-570 | Accepts exactly one well-formed SBOM for each target; the check for duplicates across targets cannot fail; `DesktopMeaning.CombinedIff` and `DesktopMeaning.CombinedIs` say this of the inputs |
| DesktopMeaning.CombinedIff | scripts/assemble_desktop_release.py:446-570 | Said of the inputs: accepted exactly when they are the four named targets, each once, and each has a good SBOM |
| DesktopMeaning.SbomIff | scripts/assemble_desktop_release.py:483-560 | A good SBOM: CycloneDX, with a root of the release version that has a reference; every component at every depth is an object with usable properties that do not name a target already, a usable reference or none, and nested components or none; no reference stands at two places; and the nodes have distinct references and mention only components |
| DesktopMeaning.CombinedIs | scripts/assemble_desktop_release.py:446-570 | The components and nodes are those of the inputs, input by input: at every depth the component as it was, with the target as one more property and `urn:ancestryllm:target:`, the target and a colon before its reference; every node as it was, with that before its reference and every name in both lists, which are always there; and the roots are those of the inputs |
| DesktopDocument.Aggregate | scripts/assemble_desktop_release.py:446-622 | Accepts exactly the four targets with good SBOMs, and returns the combined document, which is closed: no reference stands at two places in it, its own root included, its nodes have different references, and they mention only its components |
| DesktopDocument.DocumentIs | scripts/assemble_desktop_release.py:603-622 | The document holds the combined components and nodes, and before these a node of its own root that names the roots of the targets, each once and in order |
| DesktopAggregate.CombinedReferencesDistinct | scripts/assemble_desktop_release.py:514-516 | All references of the combined components are pairwise distinct |
| DesktopAggregate.CombinedEdges | scripts/assemble_desktop_release.py:524-560 | Every edge of the combined SBOM is an edge of one target with the target before both names, and conversely |
| DesktopAggregate.PrefixOff | scripts/assemble_desktop_release.py:524-560 | Taking the prefix off recovers the graph of each target, absent edge lists read as empty |
| DesktopAggregate.EdgesStayInTheirTarget | scripts/assemble_desktop_release.py:550-558 | Both ends of every combined edge are references of components of the same target |
| DesktopAggregate.AggregateReferenceIsNew | scripts/assemble_desktop_release.py:603-622 | The reference of the combined SBOM is none of a target's |
| Publication.FileSystem.Publish | scripts/docs_screenshots.py:553-604 | A run succeeds exactly when nothing hindered an item and the final validation passed, and then every destination holds its image; a failure anywhere restores every file when destinations are distinct and backups can be written back, except that one image stays when its temporary file cannot be removed after the replacement; other files are never touched |
| Publication.PublishedFiles | scripts/docs_screenshots.py:581-589 | After success every destination holds the last image for it, with mode 644 for screenshots and 600 for recordings of the terminal |
| Publication.FileSystem.PublishEach | scripts/docs_terminal_capture.py:955-980 | The loop publishes item by item; where it stops decides which items were replaced, listed and backed up |
| Publication.FileSystem.Stage | scripts/docs_screenshots.py:578-592 | A temporary file either replaces the destination or is gone afterwards, unless removing it fails |
| Publication.FileSystem.RollBack | scripts/docs_terminal_capture.py:981-987 | The rollback puts back what was published, from the last item to the first |
| Publication.FailureRestores | scripts/docs_screenshots.py:594-603 | With distinct destinations a failure at any point leaves every file as it was, except for an image that was replaced and not listed as published; for the terminal script this is said of the contents |
| Publication.RestoredIffDistinct | scripts/docs_screenshots.py:564-603 | That holds of every failure, wherever it happens and whatever was there, if and only if no destination is repeated |
| Publication.RepetitionIsNotRestored | scripts/docs_screenshot_manifest.py:452-458 | What the check of distinct outputs protects from: with a repeated destination, a failure right after its second backup leaves the first image behind |
| Publication.ImageStays | scripts/docs_screenshots.py:590-592 | When removing the temporary file fails after the replacement, that image stays published |
| Publication.TerminalLosesModes | scripts/docs_terminal_capture.py:981-987 | The terminal script leaves every file that it put back with the mode of a temporary file |
| Publication.TerminalRestoresIff | scripts/docs_terminal_capture.py:981-987 | So with distinct destinations its failed run leaves the modes as they were if and only if the files it had replaced have that mode anyway |
| WikiSync.Wiki.Sync | scripts/sync_wiki_docs.py:157-220 | Refuses exactly when the source, the manifest or the destination is not acceptable, and then changes nothing; succeeds exactly when, besides, the directory of every stale asset is there and not cleared by the stale assets before it, and no asset lies below a page, another asset or the manifest; on success the files are the mirror, and the report says exactly what was copied and removed; whatever the outcome, unmanaged paths are never touched, and no file is changed or removed that is no page at the top level, not the manifest and not recorded in it |
| WikiSyncMeaning.AcceptedIff | scripts/sync_wiki_docs.py:73-154 | Said of the characters of the names: acceptable means that the manifest is absent or a file that names assets, each once; that no page's place is a directory; that every asset of the source or the manifest has no empty, `.`, `..` or `.git` part, no backslash and no Markdown suffix, is not the manifest, has no directory at its place, no file above it and no unrecorded file at its place; and that none of them differs only in case from another, a page or the manifest |
| WikiSyncMeaning.MirrorMeans | scripts/sync_wiki_docs.py:174-218 | What every path holds afterwards: an asset at its place its content; otherwise a page its content; otherwise nothing where a top-level Markdown file or a recorded asset was; otherwise what it was; and the manifest exactly when there are assets |
| WikiSyncMeaning.OthersKept | scripts/sync_wiki_docs.py:157-163 | A file that is no top-level Markdown file, not the manifest and not recorded in it keeps its contents in every run, whatever the outcome, even at the place of an asset of the source |
| WikiSync.Wiki.RemoveAsset | scripts/sync_wiki_docs.py:182-190 | Removes the file and the directories it leaves empty; fails exactly when the directory to be looked into is not there |
| WikiRemoval.RemovableIffDirectoriesLast | scripts/sync_wiki_docs.py:182-190 | Removing the stale assets in order gets to its end if and only if the directory of each is there at the start and is not cleared by those before it: cleared means that every file below it is one of theirs, and it and each directory below it lie above one of them |
| WikiRemoval.GoneIffCleared | scripts/sync_wiki_docs.py:187-190 | After some removals a directory is gone exactly when they have cleared it |
| WikiRemoval.PresentCanBeRemoved | scripts/sync_wiki_docs.py:182-190 | Recorded assets that are all still there can always be removed |
| WikiRemoval.MissingDirectoryStops | scripts/sync_wiki_docs.py:187-190 | A recorded asset whose directory is gone from the start stops the run with an error of the operating system |
| WikiSyncExamples.EmptiedDirectoryStops | scripts/sync_wiki_docs.py:182-190 | So does a concrete accepted checkout in which the directory is there, until removing another asset empties it |
| WikiSync.Wiki.WriteAssets | scripts/sync_wiki_docs.py:202-208 | Succeeds exactly when every asset finds directories above it and none in its place |
| WikiSyncLaws.ConflictIffBelowManifest | scripts/sync_wiki_docs.py:40-66 | For what can come out of a source tree, the only conflict is an asset in a directory with the name of the manifest |
| WikiSyncExamples.ManifestIsInTheWay | scripts/sync_wiki_docs.py:202-215 | A concrete accepted source with such an asset, for which the run fails when it writes the manifest |
| WikiSyncLaws.PagesMirrored | scripts/sync_wiki_docs.py:174-208 | After success the top-level Markdown files are exactly the pages, with their contents, if and only if every asset with the name of a page is a page with the same content |
| WikiSyncLaws.QuietIffDotMd | scripts/sync_wiki_docs.py:46-54 | That condition fails only for an asset `.md` that is no page with the same content |
| WikiSyncExamples.DotMdIsNotMirrored | scripts/sync_wiki_docs.py:46-54 | A concrete accepted source for which it fails: a linked page `.md` that rewriting changes |
| WikiSyncLaws.AssetsMirrored | scripts/sync_wiki_docs.py:202-208 | After success every asset is there with its content |
| WikiSyncLaws.StaleAssetsGone | scripts/sync_wiki_docs.py:182-200 | After success every recorded asset that is no longer referenced is gone, unless it is the place of a page |
| WikiSyncLaws.ManifestMirrored | scripts/sync_wiki_docs.py:210-218 | After success the manifest lists exactly the assets, and is there only when there are any |
| WikiSyncLaws.NextRun | scripts/sync_wiki_docs.py:157-220 | An immediate second run succeeds and changes no file; it reports no change if and only if no asset has the name of a page with other content or of no page |
| WikiSyncLaws.OnlyDotMd | scripts/sync_wiki_docs.py:59-73 | The only safe asset name that is the name of a page is `.md` |
| WikiSyncLaws.NoReportNoChange | scripts/sync_wiki_docs.py:31-34 | A run that reports no change has changed no file |
| LinkRewriter.FindLabelEnd | scripts/rewrite_wiki_links.py:89-109 | The loop computes the label end that the next row characterises |
| LinkRewriter.LabelEndIsFirstUnmatched | scripts/rewrite_wiki_links.py:89-109 | That is the first closing bracket outside code spans with as many opening as closing ones before it, and nothing exactly when there is none |
| LinkRewriter.RewriteFragment | scripts/rewrite_wiki_links.py:35-86 | The output is the fragment's pieces with the callback applied to the destinations, and the callback is called on exactly those, in order; `FragmentLinks.FragmentIsWoven` says which these are |
| FragmentLinks.FragmentIsWoven | scripts/rewrite_wiki_links.py:35-86 | Said of the characters: from left to right, outside code spans and earlier links, a link opens at every `[` without `!` before it and an image at every `![`; it is one exactly when its first unmatched `]` is followed by `(` and then a non-empty text without a line break up to the first `)`; nothing else is one. The output is the fragment with the callback applied to these texts, for images only when they count, and the callback is called on exactly them, in order |
| FragmentLinks.LinksAreUnique | scripts/rewrite_wiki_links.py:35-86 | This fixes the links of a fragment: two lists of links that both meet it are the same |
| LinkRewriter.FragmentIsFlat | scripts/rewrite_wiki_links.py:45-86 | Put together, the pieces are the fragment |
| LinkRewriter.FragmentWellPlaced | scripts/rewrite_wiki_links.py:66-84 | Every destination that reaches the callback is not empty, has no closing parenthesis or line break, and stands between `](` and `)` |
| MarkdownLinks.Rewrite | scripts/rewrite_wiki_links.py:112-157 | The output is the document's pieces with the callback applied to the destinations; the pieces, and so the calls, depend on the Markdown and the image flag only; `MarkdownForm.DocumentBecomes` says what they are |
| MarkdownForm.DocumentBecomes | scripts/rewrite_wiki_links.py:112-157 | Said of the characters: the document is its lines; those with text and outside fences are put together as long as they follow one another, and the links of the whole are rewritten; every other line is as it was |
| MarkdownForm.LinesAreLines | scripts/rewrite_wiki_links.py:135 | The lines end after each line break that `str.splitlines` knows, a carriage return and line feed being one, and at the end |
| MarkdownForm.FenceIff | scripts/rewrite_wiki_links.py:14 | A line is a fence of n characters c exactly when up to three spaces, n backticks or n tildes, at least three, and something else or nothing stand at its beginning |
| MarkdownForm.InFenceIff | scripts/rewrite_wiki_links.py:135-147 | A line is in a fence exactly when an earlier line opened one outside any other and none since has closed it with as many or more of its characters |
| MarkdownLinks.RewritingIsFaithful | scripts/rewrite_wiki_links.py:112-157 | With a callback that changes nothing the output is the input, for every document, and every destination is well placed |
| MarkdownLinks.FencedLinesAreCopied | scripts/rewrite_wiki_links.py:135-155 | A line of a fence, opening and closing lines included, is copied and is in no block that reaches the callback |
| MarkdownLinks.BlocksCover | scripts/rewrite_wiki_links.py:135-155 | The blocks cover the lines one after the other, and a line is in a rewritten block exactly when it is outside fences and not blank |
| MarkdownLinks.WikiDestinationDropsOneSuffix | scripts/rewrite_wiki_links.py:18-31 | The wiki's callback removes the `.md` at the end of the destination's path exactly when that path names a local page, and else leaves the destination as it is |
| MarkdownLinks.PageIff | scripts/rewrite_wiki_links.py:26 | A path names a local page exactly when it ends in `.md`, contains no `://` and begins with none of `/`, `mailto:` and `tel:` |
| RuleDeduplication.Deduplicate | scripts/run_pinned_semgrep.py:398-425 | Fails exactly when a rule is unusable or two share an identifier with different content; kept rules plus the duplicate count equal the input count |
| RuleMeaning.AcceptedIff | scripts/run_pinned_semgrep.py:398-420 | Accepted exactly when every rule can be encoded and has an identifier that is not blank, and no two different rules have the same one |
| RuleMeaning.KeptIff | scripts/run_pinned_semgrep.py:406-425 | A rule is kept exactly when no earlier one has its identifier and none agrees with it in all fields other than identifier, message, metadata and severity |
| RuleDeduplication.KeptIsSubsequence | scripts/run_pinned_semgrep.py:406-425 | The kept rules are a subsequence of the input, in its order |
| RuleDeduplication.KeptAreDistinct | scripts/run_pinned_semgrep.py:412-424 | No two kept rules share their identifier or their matching logic |
| RuleDeduplication.EveryRuleIsRepresented | scripts/run_pinned_semgrep.py:412-424 | The matching logic of every input rule is that of a kept one |
| RuleDeduplication.SecondPassKeepsAll | scripts/run_pinned_semgrep.py:398-425 | A second pass accepts the kept rules and removes none |

## Left out

- Parsing and schemas: Project items, blockers and policies come parsed; what `_all_project_issues`, `verify_project_schema`, `_validate_policy` and the JSON Schemas check of them is assumed where a precondition or a definition says so.
- CRC-32, zlib, SHA-256, the JSON and YAML encoders, `urlsplit`, `casefold`, `datetime.fromisoformat`, `str.isspace` and the regular expression for code spans are parameters. Of the code spans it is assumed that they are not empty, lie in the text and do not overlap, of the asset manifest that it reads back as it was rendered, and, for the representation of dropped rules, that different rules are encoded differently.
- SecurityGate.VerifySecurityDependencyGate: an error is given by its code and issue numbers; which of several violated checks is reported first is fixed by the method and not stated in its contract.
- DependencyCycles.Visit: the nested function's variables are passed in and out as one record; the limit on Python's recursion depth is not modelled. The same holds of AcyclicityChecks and ProjectGate.
- ResponseHandoff.NeverStuck: `notify_all` and spurious wake-ups are both a step that lets a waiting caller look again, possible at any time; the thread start and the operating system's scheduling are any interleaving.
- BootstrapRun.Bootstrap.Run: what the single steps do (downloading, unpacking, attestation, versions, temporary files) is an arbitrary outcome of each, and the digest of each file is a parameter that is compared with the policy's; the receipt file, the order of the steps and the digest checks are what is modelled.
- Download.Destination.Fetch: the transport and its timeouts are the outcome of each read, and removing a partial file is assumed to succeed.
- SbomSanitizing.Sanitize: the script changes the JSON objects in place; here a sanitised value is returned. Object members are visited in any order, so which of two errors is raised first is open. JSON numbers are integers and reals, without NaN and infinities.
- SbomCanonical.CanonicalizeSbom: error codes are stated for the single passes, not for the whole; running the generator and writing the file are not modelled.
- DesktopAggregate.AggregateSboms: of `aggregate` only the SBOM part is modelled; messages are not distinguished.
- Publication.FileSystem.Publish: directories that `mkdir` creates stay after a rollback and are not modelled. Exceptions that the scripts do not handle there, such as an interrupt, are left out.
- WikiSync.Wiki.Sync: symbolic links are left out, and file names are compared exactly. Single writes are assumed to succeed; the pages are written in any order. Of the page source only the resulting pages and assets are modelled. Reading the source, which fails before anything is changed, is one parameter.
- RuleMeaning.AcceptedIff: a rule that can be encoded is assumed to be encodable without some of its fields, which holds of `json.dumps`.
- MarkdownLinks.Rewrite: the callback is a function of the destination; the sequence of its calls is a result.
- `SourceIndex` and the relative URLs of `docs_linking.py`, `select_scenarios`, closed-field validators, benchmarks, evidence writers, and everything that runs containers, browsers or terminals: they would add easy members, or approximate languages that the scripts do not define.
