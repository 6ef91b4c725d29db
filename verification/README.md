# LuaSkills core: verified model

A Dafny model of the parts of LuaSkills whose correctness depends on unbounded input, on
interleaving, or on several programs agreeing. `dafny verify dfyconfig.toml` checks all of it.

- **Strict JSON admission** (`JsonGrammar`, `JsonParser`, `JsonScanner`, `JsonAdmission`,
  `JsonSpelling`). The grammar of RFC 8259 (sections 4, 6 and 7) is a concrete syntax tree with a
  rendering; a reader is proved sound and complete for it. The recursive visitor and the flat byte
  scanner that follows it are methods over bytes, and the two passes together are proved to decide
  one declarative notion of admission; which names are the same is stated over their spellings.
- **Engine handles** (`EngineRegistry`, `EngineProgress`). The registry lock, the per-engine mutex,
  the thread-local active list and the remove, lock, take, unlock, drop sequence are atomic steps of
  arbitrarily many threads with nested calls; the safety results hold in every state of every run,
  and the progress results say when a call is served.
- **Build identity** (`Utf8`, `IdentityDigest`, `SourceTree`). The digest preimage as both programs
  absorb it, and the three ways of finding the inputs, over any tree and any listing order.
- **Dependency installation** (`FileSystem`, `ArchiveNames`, `ArchiveSpelling`, `ArchiveInstall`,
  `ArchiveTrees`, `PayloadInstall`, `DependencyPaths`, `DownloadCache`, `DependencyManager`,
  `DependencyInstall`, `DependencyOutcome`, `DependencyRuns`, `DependencySpelling`, `ExportTrees`,
  `DependencyReuse`). The disk is an object whose calls may fail at any moment and leave partial
  work, except where it is declared reliable; what the network answers is arbitrary.
- **Memory across the C interface** (`FfiHeap`, `FfiStructures`, `FfiResults`). A release walk over
  a heap of exact-length slices and boxes specifies every free function and reads every field back.
- **Release protocols** (`ContractSeries`, `TagChain`, `RecoveryNames`, `RecoveryInventory`,
  `JobPages`).

Eight statements one might expect of the code do not hold as they stand, and the model proves the
exact condition instead.

- The zip and tar.gz installs of one archive can differ in execute bits: a tar.gz entry consumed by
  several exports is copied from its first target with `fs::copy`, which passes an execute bit on
  that the file had before the install (`ArchiveTrees.TreesAgree`, `ArchiveTrees.TreesCanDiffer`).
- Update cleanup compares declared versions, whereas a release is installed under its version
  without a leading "v". It keeps every root the current manifest declares, but it can remove the
  root in use (`DependencyRuns.PresentAfterCleanup`, `DependencyRuns.RespelledVersionIsStale`).
- The Rust and Python input maps differ on names that contain a backslash, and only the Rust
  worklist refuses nested roots (`SourceTree.ReportsAgree`, `SourceTree.SourceFilesRust`).
- Rejecting reentrant calls does not rule out deadlock: an operation may call into another engine,
  and two threads that call into each other's wait for ever. No call can go on exactly when every
  one of them waits for an engine whose operation has called back in
  (`EngineProgress.WaitingExactly`, `EngineProgress.CrosswiseDeadlock`).
- Handle ids come from a wrapping 64-bit counter, so they are distinct exactly until it wraps
  (`EngineRegistry.IdsRepeat`).
- The version pattern also reads digits outside ASCII, so one series can be opened twice under two
  tags with different contracts, and the predecessor that is named need not be published. Each
  series keeps one contract exactly when no series is opened twice, as it never is in ASCII
  (`ContractSeries.VersionsDecide`, `ContractSeries.SeriesOpenedTwice`).
- An installed dependency is not always found again without the network. Probes are derived from the
  trimmed declaration, installs from the resolved version and tag, so a probe may never look in the
  right place (`DependencyReuse.SpacedVersionMissed`); and an error at an earlier probe ends the
  search, as a plain file in place of the first version directory does for a release declared with a
  leading "v" (`DependencyReuse.ObstructedCandidate`). It is found by every search exactly under the
  two conditions of `DependencyReuse.ReuseExact`.
- A payload without a digest need not be what the server has for the declared version: it is cached
  under kind, name and platform, and a cached payload is installed whenever it serves the exports
  (`DependencyInstall.UndigestedPayload`, `DependencyInstall.OldPayloadReused`).

## Model

| member | source | states |
|---|---|---|
| JsonAdmission.Validate | src/ffi_embedded/json.rs:94-142 | accepts exactly the byte strings that are the rendering of some RFC 8259 document within the depth limit, with nothing trailing, no object at any depth with two members of the same decoded key, every integer token in [-2^63, 2^64-1] and every float finite; the scan never indexes out of bounds |
| JsonAdmission.PassesTogether | src/ffi_embedded/json.rs:94-142 | the two passes split the work without a gap: decoder acceptance and the token ranges together are the admission of every number |
| JsonAdmission.VisitMap | src/ffi_embedded/json.rs:78-89 | the growing key set refuses an object exactly when two decoded member names coincide or a member is not admitted, and otherwise consumes exactly the object |
| JsonAdmission.VisitMember | src/ffi_embedded/json.rs:82-87 | one member is refused exactly when its key was seen, or key or value does not read |
| JsonAdmission.VisitSeq | src/ffi_embedded/json.rs:71-74 | an array is accepted exactly when all its elements are, and exactly the array is consumed |
| JsonAdmission.VisitValue | src/ffi_embedded/json.rs:15-17 | dispatch on the next value: accepted exactly when the grammar reads an admissible value there |
| JsonAdmission.VisitScalar | src/ffi_embedded/json.rs:31-67 | scalars: the only refusal beyond the grammar is a float that does not decode to a finite number |
| JsonParser.SoundDocument | src/ffi_embedded/json.rs:97-101 | whatever the reader accepts is the rendering of the valid document it returns, within the depth limit |
| JsonParser.CompleteDocument | src/ffi_embedded/json.rs:97-101 | every valid document within the depth limit is read back from its rendering, so documents are unique for their bytes |
| JsonScanner.ScanNumbers | src/ffi_embedded/json.rs:105-140 | the flat scan stays in bounds, terminates, and accepts exactly when all tokens it isolates fit 64 bits |
| JsonScanner.TokensDocument | src/ffi_embedded/json.rs:105-140 | on every valid document, with any white space, escapes and nesting, the isolated tokens are the document's number tokens in order and nothing inside strings or literals |
| JsonScanner.TokensValue | src/ffi_embedded/json.rs:105-140 | the same for a value in any context, by induction over the grammar |
| JsonScanner.StringEnd | src/ffi_embedded/json.rs:108-117 | skipping a string ends right after its closing quote, escaped quotes included |
| JsonScanner.NumberEnd | src/ffi_embedded/json.rs:118-124 | a token is the longest run of number bytes |
| JsonScanner.TokenFitsMeaning | src/ffi_embedded/json.rs:125-136 | the textual range check on a token is the integer range of the number it writes; fractions and exponents are never range-checked |
| JsonSpelling.NamesDecide | src/ffi_embedded/json.rs:78-89 | an object whose names are spelled in any mix of literal characters, two-character escapes, four-digit escapes and surrogate pairs is accepted exactly when the names, as code points, differ, and nested objects and numbers are admitted; stated over spellings, without the decoder |
| JsonSpelling.TwoNames | src/ffi_embedded/json.rs:81-87 | an object with two members is accepted exactly when the texts that its names spell differ, however they are spelled |
| JsonSpelling.ControlNames | src/ffi_embedded/json.rs:81-87 | so a newline escape and the letter n are different names, and a newline escape and its four-digit form are the same name |
| JsonSpelling.EscapesAgree | src/ffi_embedded/json.rs:81-85 | there are eight two-character escapes, and each denotes what its four-digit form denotes in section 7 of RFC 8259 |
| JsonSpelling.SpellingsExact | src/ffi_embedded/json.rs:81-85 | a character of a string spells a code point exactly when it is valid and decodes to it: itself, the digits of a four-digit escape, or the UTF-16 halves of a surrogate pair |
| JsonSpelling.Vocabulary | src/ffi_embedded/json.rs:105-124 | the structural bytes, white space and literals are those of RFC 8259, given as text |
| JsonSpelling.DecimalValue | src/ffi_embedded/json.rs:125-136 | the digits of a number in decimal have that number as their value in the range check |
| EngineRegistry.RunsAreSafe | src/ffi.rs:183-352 | in every reachable state of every interleaving of creates, operations and frees by any number of threads with nested calls: one call at most inside an engine, every engine destroyed at most once and never while an operation runs on it, no thread waits for an engine mutex while holding the registry lock, no `with_engine` call waits for a mutex of its own thread, and each active list is exactly its thread's open calls without duplicates |
| EngineRegistry.RunKeeps | src/ffi.rs:94-121 | the invariant behind it holds in every state of every run |
| EngineRegistry.AdvanceKeeps | src/ffi.rs:284-352 | every atomic step of every call keeps the invariant |
| EngineRegistry.CallKeeps | src/ffi.rs:284-295 | starting a call, also from inside an operation or a destructor, keeps the invariant |
| EngineRegistry.StepActive | src/ffi.rs:94-120 | entering and leaving the active list keeps it duplicate-free and equal to the open calls |
| EngineRegistry.StepLocks | src/ffi.rs:183-207 | lock ownership and program counters agree after every step |
| EngineRegistry.QuietAfterFree | src/ffi.rs:327-352 | after a free has returned no operation on that id runs again, including callers that cloned the handle before the removal |
| EngineRegistry.InsertNeverOverwrites | src/ffi.rs:552-554 | a create never replaces a registered handle |
| EngineRegistry.InsertOverwritesExactly | src/ffi.rs:552-554 | in any run, also after the counter wrapped, an insert would replace an entry exactly when an engine created a whole number of counter periods away is still registered |
| EngineRegistry.RunMonotone | src/ffi.rs:341-352 | a destruction or a returned free is never undone, and slots never disappear |
| EngineRegistry.IdsRepeat | src/ffi.rs:552 | ids of two creations coincide exactly when a whole number of 64-bit counter periods lies between them |
| EngineProgress.RegisteredExactly | src/ffi.rs:284-352 | in every state of every run, while ids last, a handle is found under its id exactly while its engine is live: inserted, and detached by no free |
| EngineProgress.LookupFinds | src/ffi.rs:191-197 | a lookup hands out the handle of the live engine with that id, and ends the call exactly when there is none |
| EngineProgress.CloneEnters | src/ffi.rs:94-107 | a call is refused after the lookup exactly when its own thread is already inside a call on that id |
| EngineProgress.LockServes | src/ffi.rs:291-294 | a call that has the engine's mutex runs its operation, unless a free has detached the engine; on a live engine it always runs |
| EngineProgress.FreeFinds | src/ffi.rs:327-334 | a free detaches the live engine with that id, and ends at once exactly when there is none |
| EngineProgress.FreeTakes | src/ffi.rs:341-352 | and then takes the engine, destroys it once and returns |
| EngineProgress.InsertLives | src/ffi.rs:552-554 | a create ends with its engine live and registered under its id |
| EngineProgress.OperationRuns | src/ffi.rs:284-295 | from every reachable state in which an engine is live and its mutex and the registry lock are free, every thread that can call and is not inside it can run an operation on it, and nothing else changes on the way |
| EngineProgress.OperationReturns | src/ffi.rs:284-295 | and return, with registry, engines and threads as they were |
| EngineProgress.FreeSucceeds | src/ffi.rs:327-352 | likewise a free can run to its end, after which exactly that handle is gone and its engine destroyed |
| EngineProgress.CreateSucceeds | src/ffi.rs:552-554 | likewise a create, after which exactly one engine more is live |
| EngineProgress.WaitingExactly | src/ffi.rs:284-295 | in a reachable state no call in progress can take a step exactly when every one of them waits for an engine whose current operation has itself called back in: without nested calls something can always go on |
| EngineProgress.CrosswiseDeadlock | src/ffi.rs:284-295 | and that happens: a run of two threads, each inside one engine and calling into the other's, ends in a state without any step |
| Utf8.OrderPreserved | build_support/identity.rs:84-84 | the order of UTF-8 byte strings is the order of code points (section 1 of RFC 3629), on which the agreement of the two sorted iterations rests |
| Utf8.EncodeInjective | build_support/identity.rs:85-88 | different texts have different UTF-8 encodings |
| IdentityDigest.AbsorbByBytes | build_support/identity.rs:81-91 | the Rust loop over the byte-ordered map absorbs exactly the preimage of the map |
| IdentityDigest.AbsorbByCodePoints | scripts/release/candidate.py:190-204 | the Python loop over the items sorted by code points absorbs exactly the preimage of the map |
| IdentityDigest.EncodersAgree | scripts/release/candidate.py:197-203 | for every map both programs visit the names in the same order and absorb the same bytes |
| IdentityDigest.PreimageInjective | build_support/identity.rs:83-89 | equal preimages come from equal format versions and equal maps |
| IdentityDigest.FieldInjective | build_support/identity.rs:85-88 | a length-delimited field can be split off in one way only |
| IdentityDigest.HeaderInjective | build_support/identity.rs:83 | the version and the rest are determined by the bytes |
| SourceTree.SourceFilesRust | build_support/identity.rs:33-75 | for every listing order the worklist terminates and succeeds exactly on trees that are regular under the roots, whose roots do not nest and whose slash-normalized names differ; it then returns exactly the files under the roots |
| SourceTree.SourceFilesPython | scripts/release/candidate.py:165-187 | for every listing order the per-root worklist terminates, succeeds exactly on a non-empty root list over a regular tree, and returns exactly the files under the roots |
| SourceTree.FilterReports | scripts/release/candidate.py:498 | the prefix filter over the flat archive returns exactly the files under the roots |
| SourceTree.ReportsAgree | build_support/identity.rs:59-64 | the Rust map equals the Python map exactly when no input name contains a backslash |
| SourceTree.BackslashAccepted | build_support/identity.rs:59-64 | a package with all declared roots and a file named by a backslash below src is accepted by both programs |
| SourceTree.BackslashDiffers | scripts/release/candidate.py:184-184 | and their maps differ on it, whatever the digest |
| SourceTree.NestedRootsDiffer | build_support/identity.rs:50-54 | under an edited declaration, a directory and a file in it as two roots are accepted by the Python worklist only |
| SourceTree.InputRootsNonNested | build_support/identity.rs:13-21 | the roots as they are declared never nest |
| SourceTree.ReportsUnique | scripts/release/candidate.py:498-499 | what is returned is determined by tree and roots, so the worklist and the filter agree |
| SourceTree.SingleNamesNonNested | build_support/identity.rs:13-21 | distinct single-name roots never nest |
| ArchiveNames.NormalForm | src/download/archive.rs:438-440 | normalization removes outer slashes and all backslashes, and is idempotent, as tar names need because they are normalized twice |
| ArchiveNames.MatchesByComponents | src/download/archive.rs:428-470 | an entry matches an export exactly when their components are equal, or the entry's non-empty components are one top directory followed by the export's components |
| ArchiveNames.ZipLookup | src/download/archive.rs:397-424 | lookup finds an index exactly when some decodable entry matches; it is the first exact match, or else the first match at all |
| ArchiveNames.ResolveTarget | src/download/archive.rs:483-517 | the component loop computes the target function: refusals for empty, absolute, drive-prefixed and dot components |
| ArchiveNames.TargetBelowRoot | src/download/archive.rs:483-517 | a resolved target lies strictly below the root with ordinary components only, and two manifest targets meet exactly when they differ in separator style |
| ArchiveNames.EveryPathIsATarget | src/download/archive.rs:500-516 | every path of ordinary components below the root can be declared |
| ArchiveSpelling.SeparatorStyle | src/download/archive.rs:438-489 | two texts that differ only in the style of separators resolve to the same target, match the same entries and exports, and find the same zip index |
| ArchiveSpelling.PaddingIgnored | src/download/archive.rs:438-440 | separators of either style around a name do not matter to its normal form |
| ArchiveSpelling.TargetExactly | src/download/archive.rs:483-517 | which target a text resolves to, from its characters alone: these components below the root exactly when the text is the components joined by separators of either style, each is an ordinary name, and it does not start with a drive letter |
| ArchiveSpelling.MatchesBelowTop | src/download/archive.rs:428-470 | which export an entry matches, from its characters alone: the entry's own normalized text, or its components after the first joined by single slashes |
| ArchiveSpelling.PiecesOf | src/download/archive.rs:457-470 | every normalized text is components with runs of slashes between them, so the previous statement covers every entry |
| PayloadInstall.InstallPayload | src/download/archive.rs:56-82 | nothing is written when a destination is refused; otherwise nothing outside the install root changes, success means the tree is exactly the format's tree with every export ready; with nothing in the way of the root and no target below another it succeeds exactly when what stands below the root is safe and the payload serves every export with contents that decode |
| PayloadInstall.CheckTarget | src/download/archive.rs:554-607 | a link, a non-directory parent or a non-file leaf on the way to a target is found exactly when it is there, barring a failing probe |
| PayloadInstall.ResolveTargets | src/download/archive.rs:530-541 | all destinations resolve or the whole list is refused |
| ArchiveInstall.InstallTar | src/download/archive.rs:279-391 | success only if all names and contents decode and every export is matched by this archive, with exactly the tree of the streaming pass; a missing export is the first one that no entry serves; on a disk that does not fail by itself, with open targets, nothing else fails but a stream that breaks off, also in an entry that is skipped |
| ArchiveInstall.ExtractEntry | src/download/archive.rs:308-366 | the first matching export receives the entry and the others copy its target; an entry that breaks off fails, consumed or not |
| ArchiveInstall.InstallZip | src/download/archive.rs:218-275 | success only if every export is found in an entry that opens and decodes, with exactly the tree of one lookup and write per export; on a disk that does not fail by itself, with open targets, the only other failure is an entry looked up that does not open or decode |
| ArchiveInstall.InstallRaw | src/download/archive.rs:201-214 | exactly one export is required; the payload is copied with its mode and then marked |
| ArchiveInstall.StillFit | src/download/archive.rs:609-630 | writing one target leaves every other one writable when no target lies below another |
| ArchiveInstall.FoundIffMatched | src/download/archive.rs:320-325 | zip lookup and the tar.gz pass agree on which exports an archive contains |
| ArchiveTrees.TarMeaning | src/download/archive.rs:279-391 | path by path: every target holds the body of the last entry matching any export with that target, even when targets coincide; its execute bit is what some export with it asks for or what it inherits; only missing directories appear besides, and every other path is unchanged |
| ArchiveTrees.ZipMeaning | src/download/archive.rs:218-275 | path by path: the last export of a target decides its body, the execute bit is asked for or kept, and every other path is unchanged |
| ArchiveTrees.TreesAgree | src/download/archive.rs:316-387 | when every export matches exactly one entry and targets are distinct, zip and tar.gz leave the same tree exactly when each target sharing its entry with an earlier export had that export's execute bit before, or is marked anyway |
| ArchiveTrees.FreshTreesAgree | src/download/archive.rs:316-387 | over targets none of which was executable the two trees are always the same |
| ArchiveTrees.TreesCanDiffer | src/download/archive.rs:362-372 | a two-export archive over an executable target shows that they can differ: the copy passes the old mode on |
| ArchiveTrees.TarReady | src/download/archive.rs:378-391 | after a tar.gz install every export is a file with the execute bit it asked for |
| ArchiveTrees.ZipReady | src/download/archive.rs:231-273 | after the zip writes every export is a file with the execute bit it asked for |
| PayloadInstall.DetectOnDisk | src/dependency/manager.rs:920-946 | the probe loop computes the detection function, unless a probe fails by itself |
| PayloadInstall.DetectMeaning | src/dependency/manager.rs:1097-1129 | on a well-formed tree detection says Present exactly when there are exports and every one is a regular file with its execute bit |
| PayloadInstall.InstalledIsPresent | src/dependency/manager.rs:335-376 | after a successful install of a non-empty export list detection says Present, for all formats and coinciding targets |
| DependencyPaths.Normalized | src/dependency/manager.rs:1336-1393 | normalization yields one portable component, is idempotent, and identifies two raw values exactly when they are equal or meet at a digest |
| DependencyPaths.RootsNeverNested | src/dependency/manager.rs:975-997 | install roots of one skill under kind roots that are equal or apart are equal or apart |
| DependencyManager.PresentApart | src/dependency/manager.rs:335-390 | a present dependency survives every change confined to places apart from its root |
| DependencyManager.FindExisting | src/dependency/manager.rs:410-442 | a found request is a present local probe; if none is found no version probe is present; on a reliable disk the answer is that of the first probe that is not missing, in an order of the local probes |
| DependencyManager.SearchMeaning | src/dependency/manager.rs:422-441 | such a search answers with a present local probe, comes back empty only if there is none, and fails only if some local probe meets an error |
| DependencyManager.ProbeRequests | src/dependency/manager.rs:447-484 | every version and tag candidate is probed in order, then version directories on disk for unversioned declarations, all of them in some listing order on a reliable disk |
| DependencyManager.ScanVersions | src/dependency/manager.rs:490-567 | a version directory is probed only if it has a directory for the platform, each once; on a reliable disk whenever it has |
| DependencyInstall.Resolve | src/dependency/manager.rs:571-702 | the request is exactly the one that the declared source determines: the package it names, where its payload is, the release's version and tag or the declared version, the root built from it, and the digest insisted on; refused exactly when one of these is missing or contradicted; the text of a skill list is fetched through the cache, which changes only at that file, and on a reliable disk the resolved request follows whenever the text arrives |
| DependencyInstall.FetchPackage | src/dependency/manager.rs:950-958 | the package is looked up only in a text that was cached or fetched whole, and whenever that text arrives |
| DependencyInstall.DigestsAgree | src/dependency/manager.rs:664-676 | a declared digest that contradicts the one a release reports is refused; either one alone is insisted on, the declared one without outer spaces and in lower case; without any there is nothing to insist on |
| DependencyInstall.InstallBundled | src/dependency/manager.rs:706-735 | a failed install removes only the install root; success means present, unpacked from a payload with the expected digest, and on a reliable disk it succeeds exactly when the file has the digest and serves |
| DependencyInstall.InstallRemote | src/dependency/manager.rs:335-390 | download, install, clean up, retry: only cache and install root change and the report of missing exports is unreachable; on a reliable disk with nothing in the way of the root it succeeds exactly when the first payload arrives and either it serves, or the second one has what is needed, whatever the first attempt left below the root; and the tree is that of the payload used |
| DependencyInstall.Retry | src/dependency/manager.rs:347-376 | after the clean-up a second payload that arrives with what is needed is installed, whatever stood below the root |
| DependencyInstall.Download | src/dependency/manager.rs:739-756 | what is handed out is the dependency's cache file with the expected digest; on a reliable disk it is determined by what was cached and by the server's answers |
| DependencyInstall.CleanAttempt | src/dependency/manager.rs:1211-1273 | after a cleaned attempt the download and everything below the install root are gone, except a dangling link at the root; nothing outside these two changes; nothing makes it fail on a reliable disk with nothing in the way |
| DependencyInstall.DigestedPayload | src/dependency/manager.rs:739-756 | with a digest, the payload that a successful install unpacked has it, from the cache or not, at the first try or not |
| DependencyInstall.UndigestedPayload | src/download/manager.rs:725-745 | without one, a cached payload is installed exactly when it serves, and only otherwise is the server asked |
| DependencyInstall.OldPayloadReused | src/dependency/manager.rs:336-344 | so the payload of an earlier version, cached under kind, name and platform, is installed again under a new version as long as it serves, whatever the server answers |
| DownloadCache.Obtain | src/download/manager.rs:677-818 | whatever fails, the cached file is what it was or a whole body that passes the check, and no other file is touched; what is handed out passes, has the digest if there is one, and is the cached file or the last answer; on a reliable disk outcome, number of requests and tree are determined by the cached file and the answers |
| DownloadCache.ObtainedMeaning | src/download/manager.rs:725-818 | a body is obtained with a number of requests exactly when it is the cached file that passes and none is made, or it is the first answer that passes, among one, or two for a digest when nothing was cached or reuse is not allowed |
| DownloadCache.RequestsMade | src/download/manager.rs:749-796 | with a digest that the cached file does not have, the first answer is obtained if it has the digest; if it arrived corrupt and nothing was reused, the second one if that has it, after exactly two requests; with a failing cached file exactly one request is made; without a digest never more than one |
| DownloadCache.MalformedRefused | src/download/manager.rs:1510-1520 | a digest text that is not 64 hexadecimal digits is refused without a request |
| DownloadCache.MakeRequests | src/download/manager.rs:758-815 | the attempt loop ends with the first answer that passes or with the first failure that is no digest mismatch, and leaves the target alone unless it succeeds |
| DownloadCache.Attempt | src/download/manager.rs:1406-1498 | one response is staged beside the target, checked as a whole and renamed over it; a refused one leaves at most a temporary file, and none on a reliable disk |
| DependencyRuns.InstallDependency | src/dependency/manager.rs:264-405 | success names a request that serves the declaration and is present, either found in place or unpacked from a payload with the expected digest; only cache and the dependency's own directory change, and nothing for host dependencies or remote ones without network; on a reliable disk, for every source, a dependency that is lacking and meets nothing in the way is installed exactly when its payload delivers, from that payload; one that resolving finds installed is kept; one that the host or the network switch withholds fails |
| DependencyRuns.EnsureDependency | src/dependency/manager.rs:221-259 | a required dependency is ready on success and an optional one never fails the skill; on a reliable disk a wanted dependency is reported exactly as its payload delivers if it is required, and ends up present whenever the payload delivers, required or not; what is in place already is kept, and what is withheld is reported exactly if it is required |
| DependencyRuns.EnsureSkillDependencies | src/dependency/manager.rs:98-122 | on success, with separated roots and distinct normalized names per kind, all required dependencies of all kinds are ready at once at the end; on a reliable disk it does succeed, with the optional ones ready as well, where every declaration is in place, found when resolved, or wanted with a payload that delivers, and no two share a cache file; when all are in place nothing is touched |
| DependencyRuns.ReadyKept | src/dependency/manager.rs:221-405 | ensuring one dependency leaves every other ready one ready |
| DependencyRuns.GoodKept | src/dependency/manager.rs:264-405 | a dependency that is in place, reusable or wanted with a payload that delivers stays so while any other one is installed |
| DependencyOutcome.WantedKept | src/dependency/manager.rs:264-405 | what is wanted stays wanted with the same outcome and payload under every change that leaves its own directory, its cache file, its skill list and its bundled payload alone |
| DependencyOutcome.SearchKept | src/dependency/manager.rs:410-442 | the local search sees the same under every change that leaves the dependency's own directory alone and only adds directories above it |
| DependencySpelling.KindsPlaced | src/dependency/manager.rs:975-997 | tools, Lua and FFI dependencies of a skill live under the tool, Lua and FFI root, by skill and portable name; those of the host under its own roots, by name |
| DependencySpelling.InstallPlaced | src/dependency/manager.rs:264-405 | so an install of each kind changes nothing outside the cache and the root of that kind |
| DependencySpelling.ScansExactly | src/dependency/manager.rs:490-567 | a version directory on disk is searched where an install of a version puts its files exactly when the directory has the version's portable form |
| DependencySpelling.ResolvedExactly | src/dependency/manager.rs:571-702 | a request is the resolved one exactly when package, payload, version, tag, digest and root are as the kind of source says, case by case |
| DependencySpelling.CandidatesExactly | src/dependency/manager.rs:1030-1061 | for a declaration of any outer spaces, any number of leading v and a bare version, exactly the trimmed one and the bare one are tried as versions, the trimmed one first, and these and the bare one with one v as tags; a release is installed under the bare one |
| DependencySpelling.TagIsVersion | src/download/manager.rs:1799-1806 | without a declared version the bare tag is the version |
| DependencySpelling.TemplateExactly | src/dependency/manager.rs:1417-1426 | every occurrence of a placeholder is replaced when its value is known and stays otherwise |
| DependencySpelling.PortableExactly | src/dependency/manager.rs:1354-1373 | a component is portable exactly when it is not empty, does not end in a dot, has only the listed characters and is no device name, whatever follows the name after a dot |
| DependencySpelling.ReservedTable | src/dependency/manager.rs:1379-1398 | the device names are the 22 of the table, in any case |
| DependencySpelling.SkillIdsExactly | src/skill/manifest.rs:162-182 | a skill id without its outer spaces starts with a small letter, does not end in a hyphen and has small letters, digits and hyphens only; exactly these are accepted |
| DependencySpelling.CacheNamesExactly | src/download/manager.rs:985-994 | the cache files of payloads and skill lists are named by the digest of kind, name and platform, or of the encoded address, and the suffix |
| DependencySpelling.CacheKeysDiffer | src/dependency/manager.rs:341-350 | on one platform two dependencies have the same cache key exactly when kind and name are the same |
| DependencySpelling.DeclaredExactly | src/dependency/manager.rs:838-890 | the roots a manifest declares, in terms of the three lists and the three kind roots |
| DependencyRuns.CollectRoots | src/dependency/manager.rs:838-890 | the three loops collect exactly the install roots declared for this platform |
| DependencyRuns.CleanupUpdated | src/dependency/manager.rs:800-821 | nothing outside the stale roots is lost, nothing at or below the stale roots is left on success except dangling links at the roots, with kind roots equal or apart nothing at or below a currently declared root changes, and on a disk that does not fail by itself only a stale root that is a file, leads to one or lies below one makes it fail |
| DependencyRuns.DeclaredRootsApart | src/dependency/manager.rs:838-916 | declared roots of any two manifests are equal or apart |
| DependencyRuns.PresentAfterCleanup | src/dependency/manager.rs:800-821 | a dependency in use survives a successful cleanup exactly when the root it is used from is not among the stale ones |
| DependencyRuns.RespelledVersionIsStale | src/dependency/manager.rs:806-815 | and that root can be stale: respelling a release version with a leading v makes the root in use one that cleanup removes |
| DependencyReuse.ReuseExact | src/dependency/manager.rs:410-442 | what was resolved and installed is found by every later search on a disk without faults, whatever else is there and in whatever order versions are listed, exactly when some probe looks only for what the request installs and wherever a probe can meet an error, an earlier probe looks only for what is certainly there then |
| DependencyReuse.FindAgain | src/dependency/manager.rs:278-297 | on a reliable disk the next search for a covered request never comes back empty, and finds it unless a probe meets an error that can cut it short |
| DependencyReuse.CandidateIsReused | src/dependency/manager.rs:1030-1061 | a request built from the declared package whose version and tag are candidates is covered, so it is always found exactly when no error can cut the search short |
| DependencyReuse.ReleaseIsReused | src/dependency/manager.rs:1046-1061 | the same for a release of a declared version under a candidate tag |
| DependencyReuse.FirstIsReused | src/dependency/manager.rs:422-441 | what the first probe covers is always found: no error can come before it |
| DependencyReuse.PlainReleaseIsReused | src/dependency/manager.rs:1030-1061 | in particular a release declared without a leading v and tagged as declared |
| DependencyReuse.ObstructedCandidate | src/dependency/manager.rs:410-442 | a release installed under another version directory than the first one tried is missed: a plain file in place of that directory makes every search fail although the release is present |
| DependencyReuse.LeadingVCanFail | src/dependency/manager.rs:1034-1041 | so a release whose declared version names another directory than its installed one, as with a leading v, is not always found |
| DependencyReuse.MissedVersion | src/dependency/manager.rs:660-676 | a version installed in a directory that no candidate leads to is covered by no probe |
| DependencyReuse.UncoveredIsMissed | src/dependency/manager.rs:410-442 | and what no probe covers is not found where nothing else is on the disk |
| DependencyReuse.SpacedVersionMissed | src/dependency/manager.rs:1034-1041 | which happens to a URL source whose declared version has an outer space: it is installed untrimmed, searched trimmed and not found |
| ExportTrees.FailedIsBlocked | src/dependency/manager.rs:920-946 | an error met in a tree that has the request's files is a possible error of the exports, at an export whose predecessors are all there |
| ExportTrees.BlockedTree | src/dependency/manager.rs:920-946 | and every possible error is met in some tree that has the request's files and little else |
| ExportTrees.CoveredIsPresent | src/dependency/manager.rs:920-946 | a probe whose exports are all among the request's files is present wherever they are |
| ExportTrees.PresentIsCovered | src/dependency/manager.rs:920-946 | and where no other files are, every present probe is of that kind |
| DependencyPaths.ReleaseIsProbed | src/download/manager.rs:1799-1806 | the version a release is installed under is one of the candidates of the declared version |
| FfiHeap.TakeConcat | src/ffi_standard.rs:1514-1560 | releasing a list of fields is releasing its parts in turn |
| FfiHeap.TakeFrame | src/ffi_standard.rs:212-218 | what a release removes does not depend on memory elsewhere, which stays |
| FfiHeap.TakeCommutes | src/ffi_standard.rs:192-218 | two releases may change places: each sees the same contents and the same memory remains |
| FfiHeap.ReleasedOnce | src/ffi_standard.rs:212-218 | what owned memory cannot be released a second time |
| FfiHeap.Heap.AllocSlice | src/ffi_standard.rs:192-203 | an empty slice is null with length zero; otherwise one new allocation of exact length owns the rows |
| FfiHeap.Heap.TakeSlice | src/ffi_standard.rs:212-218 | the slice's own allocation goes and its rows remain to be released; null or zero length releases nothing |
| FfiHeap.Heap.AllocText | src/ffi_standard.rs:165-181 | a buffer owns exactly its one allocation and reads as the text |
| FfiHeap.Heap.FreeText | src/ffi_standard.rs:1769-1771 | exactly the buffer's allocation is released, nothing for null or zero length |
| FfiStructures.AllocStringArray | src/ffi_standard.rs:807-813 | the array owns exactly what was added and reads as the strings in order |
| FfiStructures.AllocEntry | src/ffi_standard.rs:843-871 | a schema that does not serialize fails before anything is allocated; otherwise every field reads back in its place |
| FfiStructures.AllocEntryList | src/ffi_standard.rs:878-898 | a failing entry makes the list fail and leaves the heap as it was; otherwise the list owns exactly what was added |
| FfiStructures.FreeEntry | src/ffi_standard.rs:1534-1550 | releases exactly what an entry descriptor owns, nested parameters included |
| FfiStructures.AllocNode | src/ffi_standard.rs:901-911 | a help node owns exactly what was added and reads back field by field |
| FfiStructures.FreeNode | src/ffi_standard.rs:1553-1557 | releases exactly what a help node owns |
| FfiStructures.AllocHelp | src/ffi_standard.rs:914-931 | a help tree owns exactly what was added and reads back field by field, its main node and flows included |
| FfiResults.NewStrings | src/ffi_standard.rs:807-813 | a boxed string array owns exactly what was added |
| FfiResults.FreeStrings | src/ffi_standard.rs:1957-1963 | releases exactly the box, the array and every string; null releases nothing |
| FfiResults.StringsRoundTrip | src/ffi_standard.rs:1957-1963 | allocating and freeing a string array of any size restores the heap |
| FfiResults.NewEntryList | src/ffi_standard.rs:2491-2503 | the boxed list owns exactly what was added; on failure nothing is live |
| FfiResults.FreeEntryList | src/ffi_standard.rs:1974-1984 | releases exactly the list with everything nested in it; null releases nothing |
| FfiResults.NewHelpList | src/ffi_standard.rs:2534-2541 | the boxed help list owns exactly what was added |
| FfiResults.FreeHelpList | src/ffi_standard.rs:1995-2018 | releases exactly the help list with all nodes and related entries |
| FfiResults.NewDetail | src/ffi_standard.rs:934-951 | a help detail owns exactly what was added and reads back field by field |
| FfiResults.FreeDetail | src/ffi_standard.rs:2028-2044 | releases exactly what a help detail owns |
| FfiResults.NewInvocation | src/ffi_standard.rs:978-1001 | a host result that does not serialize leaves nothing live; otherwise the result and its optional boxed host result own exactly what was added |
| FfiResults.FreeInvocation | src/ffi_standard.rs:2054-2069 | releases exactly the invocation result and, for the host result, the box with both its buffers |
| FfiResults.NewApply | src/ffi_standard.rs:1004-1021 | an apply result owns exactly what was added; absent texts own nothing |
| FfiResults.FreeApply | src/ffi_standard.rs:2079-2089 | releases exactly what an apply result owns |
| FfiResults.NewUninstall | src/ffi_standard.rs:1024-1030 | an uninstall result owns exactly what was added |
| FfiResults.FreeUninstall | src/ffi_standard.rs:2100-2109 | releases exactly what an uninstall result owns |
| FfiResults.EntryListRoundTrip | src/ffi_standard.rs:878-898 | allocating and freeing an entry list of any size and nesting, failing or not, restores the heap |
| FfiResults.HelpListRoundTrip | src/ffi_standard.rs:1995-2018 | allocating and freeing a help list of any size restores the heap |
| FfiResults.InterleavedRoundTrip | src/ffi_standard.rs:2028-2069 | two results freed in the order of their allocation restore the heap |
| FfiResults.TakeBuffer | src/ffi_standard.rs:1475-1507 | a returned buffer is released before its text is judged, so a decoding failure cannot leak it |
| FfiResults.FinishCallback | src/ffi_standard.rs:1246-1277 | on every exit of the callback bridge both returned buffers have been released exactly once, and the reply is what status, response and error text determine |
| FfiResults.RepliesExactly | src/ffi_standard.rs:1246-1277 | the reply by cases: the text exactly on success with a response and no or an empty error text; the host's message or none exactly on failure, whatever the response; a refusal for an error text on success, a missing response and a buffer that is not well formed |
| FfiResults.TextHandedOver | src/ffi_standard.rs:165-181 | a text handed over and taken back is read as it was and leaves nothing live; the empty one is absent |
| FfiResults.OverflowWritten | src/ffi_standard.rs:981-985 | the three overflow modes are told apart by the codes 0, 1 and 2 after the content |
| ContractSeries.VersionExact | scripts/release/contract_series.py:25-32 | rendered versions parse, and a version string that parses is the rendered one exactly when it is ASCII, for every digit class that extends the ASCII digits |
| ContractSeries.ReadingIsFaithful | scripts/release/contract_series.py:25-45 | reading versions with any such digit class reads written versions back and gives each version one ASCII spelling |
| ContractSeries.PreviousRelease | scripts/release/contract_series.py:35-45 | the newest earlier patch number that some tag of the series spells, or none exactly when there is none |
| ContractSeries.PredecessorUnpublished | scripts/release/contract_series.py:40-45 | the tag named for that number need not be among the tags: a tag spelled with an Arabic-Indic zero has its number but not its name |
| ContractSeries.Check | scripts/release/contract_series.py:48-69 | accepts exactly version strings that parse, whose contract declares their series, and that open it or repeat the contract fetched under the tag of the newest earlier patch |
| ContractSeries.Opener | scripts/release/contract_series.py:48-69 | every patch release of a history carries the contract of the x.y.0 that is published in its ASCII spelling |
| ContractSeries.SeriesFixesContract | scripts/release/contract_series.py:48-69 | in every append-only history in which no series is opened twice, whatever the order of publication, two releases carry the same contract exactly when they are of one series |
| ContractSeries.VersionsDecide | scripts/release/contract_series.py:55-60 | the exact condition, read off the version strings alone: whatever the contracts, the histories of a list of versions keep one contract per series exactly when no series is opened twice |
| ContractSeries.AsciiOpensOnce | scripts/release/contract_series.py:48-69 | when all versions are spelled in ASCII no series is opened twice, so each series keeps one contract |
| ContractSeries.SeriesOpenedTwice | scripts/release/contract_series.py:29-32 | it does fail: 10.2.0 and its spelling with an Arabic-Indic zero both pass as openers of series 10.2, with different contracts |
| ContractSeries.PatchAccepted | scripts/release/contract_series.py:61-69 | on top of any history a patch passes exactly when its series was opened in ASCII with that contract and the newest earlier patch is published under its ASCII tag |
| ContractSeries.AsciiPatchAccepted | scripts/release/contract_series.py:61-69 | where all versions are spelled in ASCII, a patch passes exactly when its series was opened with that very contract |
| TagChain.ResolveTag | scripts/release/sdk_prerequisites.py:136-169 | terminates on every answer and accepts exactly a reference of the right name whose chain reaches the commit through at most 31 well-formed tags, the commit's own document confirming it; returns the chain of objects |
| TagChain.RequireExact | scripts/release/create_draft.py:104-134 | terminates on every finite tag graph and accepts exactly a reference of the right name from which some chain of well-formed tags reaches the commit |
| TagChain.ReadersDiffer | scripts/release/sdk_prerequisites.py:136-169 | what the first accepts the second accepts, and conversely exactly with at most 31 tags, a confirming commit document and no tag with the commit's sha on the way |
| TagChain.Loops | scripts/release/create_draft.py:116-131 | a chain that passes one tag twice never reaches a commit |
| RecoveryInventory.ValidateInventory | scripts/release/sdk_recovery.py:109-132 | accepts exactly non-empty lists of well-formed rows whose names differ in case folding, and returns the rows sorted by name |
| RecoveryInventory.InventoryFor | scripts/release/sdk_recovery.py:135-141 | accepts exactly file sets with portable bounded members, and returns the sorted description of their names, sizes and digests |
| RecoveryInventory.CompareInventory | scripts/release/sdk_recovery.py:144-153 | accepts exactly when a good inventory and the files describe the same names, sizes and digests |
| RecoveryInventory.ReorderedInventory | scripts/release/sdk_recovery.py:109-132 | any reordering of an accepted inventory is accepted and describes the same files |
| RecoveryInventory.SortedUnique | scripts/release/sdk_recovery.py:150-152 | comparing sorted rows is comparing descriptions |
| RecoveryInventory.InventoryDetermines | scripts/release/sdk_recovery.py:144-153 | without digest collisions two file sets have the same description exactly when they are equal |
| RecoveryInventory.VerifySignedBinding | scripts/release/sdk_recovery.py:326-363 | accepts exactly bytes that the signed subjects cover for a well-formed frozen attempt, its invocation and its artifact name, and that decode to a binding of that attempt with a good inventory not naming itself |
| RecoveryInventory.VerifyInventory | scripts/release/sdk_recovery.py:366-388 | accepts exactly complete artifacts for a verified record of the known schema and file name: inventory members, binding and a non-empty attestation, nothing missing and nothing extra |
| RecoveryInventory.ArtifactsAgree | scripts/release/sdk_recovery.py:366-388 | without digest collisions two artifacts accepted for one binding and attestation name agree on every byte except the attestation's, and exactly those with a non-empty attestation are accepted |
| RecoveryInventory.Literals | scripts/release/sdk_recovery.py:16-28 | the binding's file name, the schema, the kind and the size bound, written out |
| RecoveryNames.CheckRepository | scripts/release/sdk_recovery.py:49-57 | accepts exactly an owner and a repository name of the listed characters with one slash between them, the name not being dots only |
| RecoveryNames.CheckAttempt | scripts/release/sdk_recovery.py:160-165 | accepts exactly well-formed frozen attempts |
| RecoveryNames.ArtifactNamesDiffer | scripts/release/sdk_recovery.py:102-106 | two attempts have the same artifact name exactly when run and attempt number are the same |
| RecoveryNames.NamesWritten | scripts/release/sdk_recovery.py:95-106 | the addresses and names of one attempt, written out |
| JobPages.CollectJobs | scripts/release/sdk_recovery.py:196-221 | reads at most 100 pages and accepts exactly when the pages add up to a total that all of them declare |
| JobPages.ConsistentServer | scripts/release/sdk_recovery.py:202-221 | against a server that pages one fixed list, the full list is collected exactly when it has at most 10000 jobs |
| JobPages.SelectJobs | scripts/release/sdk_recovery.py:222-239 | accepts exactly when all jobs belong to the run with distinct ids and every required name is the name of exactly one job, which succeeded; returns these jobs in the required order |
| JobPages.SelectedOnce | scripts/release/sdk_recovery.py:222-239 | there is only one such selection |
| JobPages.VerifyJobs | scripts/release/sdk_recovery.py:196-239 | collection and selection together accept exactly complete listings whose jobs are the run's, with distinct ids, and meet the requirements, and return the selection from that listing |
| JobPages.VerifyAttempt | scripts/release/sdk_recovery.py:156-239 | the whole check accepts exactly when the frozen input and the list of required names are well formed, the attempt document identifies the frozen attempt with a status that fits the phase, and the jobs verify, and returns the selection from the complete listing in the required order; otherwise than for the jobs no page is read |

## Left out

- RunsAreSafe: stated while at most 2^64 engines have been created; after that an insert could replace a live handle, and the destruction of the replaced slot is not modelled.
- QuietAfterFree: has the same bound, because it speaks of ids and ids repeat after it.
- InsertNeverOverwrites: has the same bound.
- Validate: the decoder's depth limit and the rounding of floats are the parameters `limit` and `finite`; serde_json itself is represented by the reader proved equivalent to the grammar.
- InstallTar: the archive's bytes are decoded once at the start; a payload lying below its own install root, which the install could overwrite while streaming, is not modelled.
- CheckTarget: a probe that fails for its own reasons is a third answer besides safe and unsafe.
- EnsureSkillDependencies: success is stated for installs that do not share cache files or lie in each other's way; what a release index or skill list would answer for a declaration is arbitrary but does not change during one run.
- Resolve: how a GitHub release and its asset are looked up and which file a bundled path names are arbitrary answers; the text of a skill list is fetched through the cache, but what it says for a declaration is an arbitrary answer, not parsed from the text.
- Download: the file suffix inferred from a URL is an arbitrary function of it; the answers to requests for a URL are numbered from the start of each install.
- Obtain: calls for one target are taken one at a time, as its lock makes them; that a free temporary name is found within 128 tries, progress callbacks and the timing of transient HTTP retries are not modelled.
- CleanupUpdated: the conclusion about declared roots needs kind roots that are equal or apart, which the configuration does not enforce.
- VerifySignedBinding: the portable-filename and case-folding rules are parameters; JSON equality is equality of decoded values.
- SourceFilesPython: the extraction of the root list from the declaration is not modelled; the list is a parameter.
- Check: the limit of 4300 digits on Python's conversion of text to integers is not modelled; tags other than those of a history's own releases do not occur in histories.
- ResolveTag: a failing HTTP request is an absent document; RequireExact likewise.
- FinishCallback: the parsing of the response JSON, which follows on the SQLite bridge after both buffers are gone, is not modelled.
- Link following: a symbolic link is a leaf of the modelled disk that leads to a file, a directory or nowhere; root removals look through it, while a path that leads through a link to a directory, and a cache file that is a link to a file, are refused by the modelled calls.
- Concurrent writers to the disk, case-insensitive file systems and file names that are not valid Unicode.
- The embedded transport's reservation accounting, engine internals, leases, config stores and managed-session events.
- HTTP mirrors, GitHub release lookup and URL handling.
- The JSON and C entry points, option parsers and contract generators: wrappers around what is modelled.
- The download of a recovery artifact and the reading of its ZIP members.
- Uninstall cleanup, which removes three fixed directories, and skill package extraction.
