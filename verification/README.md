# Dokion verification

A Dafny model of the parts of Dokion whose correctness rests on invariants, and proofs of what those parts promise.

- **Package archive** (`Bytes`, `PackagePaths`, `Octal`, `UstarHeader`, `HeaderReader`, `PackageTar`, `TarEntries`, `ArchiveOrder`, `TarTheorems`, `TarWitnesses`, `PathSafety`, `ArchiveAcceptance`): the deterministic ustar writer and its strict reader, over byte sequences and arrays. Round trip and canonicity are if-and-only-if statements; exactly which entries the writer and which bytes the reader accept is said without their code. `RegistryPackage` builds and verifies a package on top of them; `PackageContents` and `PackageAcceptance` say exactly when each succeeds, what a built package holds, and that it is what is verified.
- **Atomic writes** (`AtomicFiles`, `AtomicRecovery`, `RecoveryNames`, `RecoveryOutcome`, `RecoveryProcess`, `RecoverySteps`, `AtomicSystem`, `AtomicWrites`, `AtomicOverlap`, `AtomicWriter`): the temporary-file protocol and its recovery as a transition system of any number of writers and recoveries with torn writes and with crashes between any two file operations, nothing keeping them apart; what it keeps when they stay apart, exactly when it survives that they do not; what becomes of each file a recovery finds, said by the files alone; and the programs that perform it.
- **Output pipeline** (`Redaction`, `OutputSpool`): a streaming multi-pattern replacer with a carry feeding a bounded spool, equal to one pass over the whole output.
- **Run engine** (`Playbook`, `DataflowContract`, `RunEngine`, `EngineReports`, `RuntimeEngine`, `ArtifactFiles`, `ArtifactCalls`, `ArtifactStore`): the dataflow validator, the engine's saved state across any runs, crashes and resumes, the engine's loops as a refinement of it in which every status answers what was last reported, and the write-once artifact store as a transition system of concurrent calls and as the program whose operations are its steps.
- **Small algorithms** (`ScopeOverlap`, `ScopeMeaning`, `ShellTokens`, `ShellGrammar`, `AutoRunner`, `Semver`, `SemverText`): overlapping globs, two shell tokenizers, the auto-runner with its circuit breaker, and version precedence.

Loops and objects that change state are methods and classes, proved against functions or predicates; the laws are lemmas about those. Where the program calls something outside this model, the call is a field of a record of services with stated laws (`Unicode`, `Services`), or a choice the proofs make no assumption about (applicability, capability results, approvals, deadlines, partial writes, crashes).

Where the code and its description part, the model follows the code:

- A name field that starts with a byte order mark loses it when it is read, so the round trip and canonicity need names without one, beside the compression signatures (`TarTheorems.RoundTrip`, `TarTheorems.Canonicity`); `TarWitnesses` has an archive for each way they fail.
- Stages are looked up by id but nothing makes stage ids unique: a COMPLETED run has finished every stage if and only if they are (`RunEngine.WhatCompletedMeans`, `RunEngine.CompletedWithoutTheSecondStage`), and with a repeated id a stage can be under way while an earlier one is untouched (`RunEngine.RepeatedStageBreaksTheShape`).
- `.` in the glob's regular expression stops at a line terminator, so an overlap with a plain scope that contains one can be missed (`ScopeOverlap.OverlapsAreReported`, `ScopeOverlap.LineTerminatorIsMissed`).
- Atomic writes are atomic as long as no recovery deals with a writer's files while it is at work (`AtomicWrites.CrashAtomicity`), which holding the run lock around both would ensure. But `dokion init` (`src/cli.ts:79-80`) and the reset command (`src/cli/handlers/reset.ts:15`) recover without that lock, and `approve`, `reject` and `report` write `HARDENING.md` without it (`src/cli.ts:141-144`, `src/cli.ts:171-182`). Then a writer can install what another has only begun to write (`AtomicOverlap.OverlapInstallsAnyPart`); `AtomicOverlap.AtomicWithoutLock` says exactly for which targets.
- A process that dies between linking and removing its temporary file leaves an artifact no one can read (`ArtifactCalls.LeftoverIsReached`, `ArtifactCalls.LeftoverStays`, `ArtifactCalls.LeftoverBlocksCalls`).
- A target whose own name ends in `.tmp` can be left behind by a completed recovery (`AtomicRecovery.TargetsNamedTmpAreLeftBehind`); `RecoveryNames.NamesThatSettle` says for exactly which file names that can happen.

## Model

| member | source | states |
|---|---|---|
| PackagePaths.SplitUstarPath | src/registry/package-paths.ts:10-29 | The scan from the last slash leftwards finds exactly the rightmost legal cut, or fails when there is none. |
| PackagePaths.SplitUstar | src/registry/package-paths.ts:10-29 | Prefix, slash and name rebuild the path; both fit their fields; every later slash is an illegal cut; on failure no cut is legal. |
| PackagePaths.ResplitIsStable | src/registry/package-paths.ts:10-29 | Splitting the joined path again gives the same pair. |
| PackagePaths.ShortPathsSplit | src/registry/package-paths.ts:10-29 | A path of at most 157 bytes with non-empty segments of at most 100 bytes always splits. |
| PackagePaths.BoundIsExact | src/registry/package-paths.ts:10-29 | 157 is exact: a rooted path of 158 bytes with short segments has no split. |
| PackagePaths.SlashInWindow | src/registry/package-paths.ts:64-71 | Any 101 consecutive bytes of a path with short segments contain a slash. |
| PackagePaths.NormalizePackagePath | src/registry/package-paths.ts:31-82 | An accepted path is the NFC form of a non-empty, relative input without NUL, within the path bound, and has a canonical split under the archive root; exactly which inputs are accepted is PathSafety.NormalizedExactly. |
| PathSafety.NormalizedExactly | src/registry/package-paths.ts:31-82 | A path is accepted if and only if it has no NUL, backslash, drive prefix or encoded separator, nothing between two slashes is empty, one dot or two dots, and its NFC form fits the bounds and splits; the result is then that form. |
| PathSafety.ReadEntriesStayInside | src/registry/package-tar.ts:254-315 | Walking the path of any entry the reader accepts never rises above the package root, and ends below it. |
| PathSafety.WrittenEntriesStayInside | src/registry/package-tar.ts:85-88 | The same of every path the writer takes, as it is given and as it is stored. |
| PackagePaths.CanonicalPathsSplitBelow143 | src/registry/package-paths.ts:31-82 | A normalized, safe path of at most 142 bytes is always accepted unchanged. |
| PackagePaths.PackagePathRegistry.Add | src/registry/package-paths.ts:106-133 | Accepts a path exactly when it normalizes, is new, and is new after case folding; the recorded paths grow by just that path. |
| Octal.PaddedParses | src/registry/package-tar.ts:39-51 | A value below 8^width prints as exactly width octal digits that parse back to it. |
| Octal.PaddedOverflows | src/registry/package-tar.ts:43-49 | A value from 8^width on does not fit the field, so the overflow branch is taken exactly then. |
| Octal.OctalUnique | src/registry/package-tar.ts:141-151 | Only one digit string of a given width denotes a value. |
| UstarHeader.PutText | src/registry/package-tar.ts:28-37 | Writes exactly the text at its offset and changes nothing else, or fails, changing nothing, when it is longer than the field. |
| UstarHeader.PutOctal | src/registry/package-tar.ts:39-51 | Writes exactly the padded digits and NUL, or fails, changing nothing, exactly when the value overflows the field. |
| UstarHeader.HeaderFor | src/registry/package-tar.ts:53-75 | The block filled in place is the header function of path and size, or the same error. |
| UstarHeader.HeaderHasFields | src/registry/package-tar.ts:53-75 | The printed block has each field at its ustar offset and a checksum over the block with a blank checksum. |
| UstarHeader.FieldsDetermineBlock | src/registry/package-tar.ts:53-75 | The fields and checksum bytes determine all 512 bytes. |
| UstarHeader.ChecksumFits | src/registry/package-tar.ts:70-72 | The byte sum of any block fits six octal digits: the checksum-overflow branch is unreachable. |
| UstarHeader.AllowedSizeFits | src/registry/package-limits.ts:1-11 | Every allowed file size fits the eleven digits of the size field. |
| HeaderReader.OctalFieldPinned | src/registry/package-tar.ts:141-151 | An octal field is accepted with a value exactly when it is that value's printed field. |
| HeaderReader.ValidatedFields | src/registry/package-tar.ts:186-215 | With given name and prefix fields, a header is accepted with a size if and only if it has the writer's fields for that size. |
| HeaderReader.ChecksumPinned | src/registry/package-tar.ts:168-184 | The checksum is accepted if and only if it is the printed sum of the block with a blank checksum. |
| HeaderReader.HeaderPinned | src/registry/package-tar.ts:168-215 | A block passes both checks with given raw texts and size if and only if it is the printed header of those fields. |
| HeaderReader.ReadSizeFits | src/registry/package-tar.ts:148-150 | Any size read from an accepted header is below 8^11, so the safe-integer check on it cannot fail. |
| PackageTar.ArchiveNeverTooLarge | src/registry/package-tar.ts:90-114 | The file-count, file-size and payload bounds imply the archive bound: the archive-too-large branch is unreachable. |
| PackageTar.EncodeLength | src/registry/package-tar.ts:107-124 | The measured archive size is the length of what is printed. |
| PackageTar.RegisterEntries | src/registry/package-tar.ts:85-88 | The registration loop equals its specification: each path normalized and new among those before it, in the caller's order. |
| PackageTar.MeasureEntries | src/registry/package-tar.ts:90-108 | The measuring loop returns the archive size, or the error of the first file or total over its bound. |
| PackageTar.FillArchive | src/registry/package-tar.ts:116-123 | Printing in place into a zeroed array gives the concatenated entry blocks and leaves the terminator zero. |
| PackageTar.CreateDeterministicPackageTar | src/registry/package-tar.ts:77-125 | The writer method, arrays and loops included, equals the writer function or fails with the same error. |
| PackageTar.ReadEntryAt | src/registry/package-tar.ts:266-313 | One loop body equals the check of one entry: header, split, path, order, limits, padding and data. |
| PackageTar.RoundsReadTheRest | src/registry/package-tar.ts:254-315 | The loop over offsets reads what the recursive reader finds in the remaining bytes. |
| PackageTar.ReadRegistryPackageTar | src/registry/package-tar.ts:233-320 | The reader method with its loop and registry equals the reader function or fails with the same error. |
| TarEntries.ReadIsAcceptable | src/registry/package-tar.ts:266-313 | Every entry the reader accepts satisfies the writer's conditions on path, order and size. |
| TarEntries.ReadIsPrinted | src/registry/package-tar.ts:266-313 | Without a byte order mark in a name field, the accepted bytes are exactly the printed entry. |
| TarEntries.PrintedReadsBack | src/registry/package-tar.ts:127-139 | A printed entry reads back as itself if and only if its name field starts with no byte order mark. |
| ArchiveOrder.RegisterAllIs | src/registry/package-paths.ts:97-134 | Registration of a list succeeds exactly when all paths normalize and no two agree after folding, whatever the order. |
| ArchiveOrder.SortIs | src/registry/package-tar.ts:86-88 | Sorting yields an ordered permutation. |
| ArchiveOrder.SortedUnique | src/registry/package-tar.ts:86-88 | Entries without clashing paths have only one sorted order. |
| TarTheorems.RoundTrip | src/registry/package-tar.ts:77-320 | What the writer prints reads back as exactly the stored, sorted entries if and only if the first stored name field begins with no compression signature and no name field begins with a byte order mark. |
| TarTheorems.ShortPathsRoundTrip | src/registry/package-tar.ts:77-320 | When the first stored rooted path is at most 100 bytes the archive reads back if and only if no name field begins with a byte order mark. |
| TarTheorems.FirstField | src/registry/package-tar.ts:217-234 | The archive starts with the first name field, and looks compressed exactly when that field does. |
| TarWitnesses.CompressionSignatureBreaksRoundTrip | src/registry/package-tar.ts:217-234 | A file named BZh in a directory of 90 bytes is written, and reading it back fails with the compression error. |
| TarWitnesses.MarkedNameBreaksRoundTrip | src/registry/package-tar.ts:127-139 | A file whose name begins with a byte order mark is written and reads back under another name, so its archive is accepted without being the writer's output for the entries read. |
| TarTheorems.OneSmallFile | src/registry/package-tar.ts:77-320 | A concrete instance: one small file is written and read back. |
| TarTheorems.WriterStores | src/registry/package-tar.ts:77-125 | On success the writer prints the encoding of a sorted, clash-free, bounded list and two zero blocks, within the archive bound. |
| TarTheorems.AcceptablesWrite | src/registry/package-tar.ts:77-125 | A list the reader returned is accepted by the writer and stored unchanged. |
| TarTheorems.EncodedReadsBack | src/registry/package-tar.ts:233-320 | An encoding followed by at least two zero blocks reads back as its list if and only if no name is marked. |
| TarTheorems.Canonicity | src/registry/package-tar.ts:127-320 | An accepted archive is the writer's output on its own entries followed by zeros if and only if no header carries a byte order mark. |
| TarTheorems.EqualEntriesEqualBytes | src/registry/package-tar.ts:254-319 | Two accepted unmarked archives of the same entries differ only in whole zero blocks at the end. |
| TarTheorems.OrderIndependence | src/registry/package-tar.ts:85-88 | Any reordering of the input is accepted alike and gives the same bytes. |
| ArchiveAcceptance.WriterSucceedsExactly | src/registry/package-tar.ts:77-125 | The writer succeeds if and only if the number of files, each path and its normal form, the absence of clashes, each size and the total are within the stated rules. |
| ArchiveAcceptance.WriterFailsWith | src/registry/package-tar.ts:77-114 | Each error of the writer names a violation that is there: too many files exactly for a wrong number of them, a duplicate or collision only for paths that clash, a size error only for a file or total over its bound. |
| ArchiveAcceptance.OneFailsWith | src/registry/package-paths.ts:106-133 | A path is refused as a duplicate exactly when it is taken as it is, and as a collision exactly when only its folded form is. |
| ArchiveAcceptance.ReaderAcceptsExactly | src/registry/package-tar.ts:233-320 | For bytes whose headers carry no mark: the reader accepts if and only if they are the writer's output for some entries, followed by zeros, in whole blocks, within the bound and without a compression signature. |
| RegistryPackage.CollectPayload | src/registry/package-builder.ts:263-285 | The payload loop equals its specification, which PackageContents.BuildsExactly characterizes: each path with the bytes of the file of that name. |
| RegistryPackage.BuildRegistryPackage | src/registry/package-builder.ts:243-323 | The builder with its loops equals the build function, whose success and contents PackageContents.BuildsExactly and PackageContents.BuiltReadsBack characterize. |
| PackageContents.BuildsExactly | src/registry/package-builder.ts:243-323 | A build succeeds if and only if every declared path can be stored, no two clash, each names a file of the source directory within the bounds and free of scripts, and manifest and total fit; its manifest then is the configuration's, with exactly the playbook, readme, license and configured files, once each, in bytewise order, with the size and digest of the file of that name. |
| PackageContents.PackedOnce | src/registry/package-builder.ts:287-300 | That list of files is unique. |
| PackageContents.BuiltReadsBack | src/registry/package-builder.ts:263-322 | Reading a built archive back gives exactly the manifest and the declared files, each holding the bytes of the file of its name in the source directory, in bytewise order, under the round trip's two conditions. |
| RegistryPackage.VerifyFiles | src/registry/package-verifier.ts:212-237 | The loop over declared files returns the verified list, or the first size, digest or script error. |
| RegistryPackage.CheckFilesIs | src/registry/package-verifier.ts:212-237 | It succeeds exactly when every declared file has the declared size and digest and no lifecycle script. |
| RegistryPackage.ComparePaths | src/registry/package-verifier.ts:195-210 | Succeeds exactly when the archive's paths and the declared paths are the same set; says which side has the extra one. |
| RegistryPackage.MatchRegistryFiles | src/registry/package-verifier.ts:186-237 | Registration, required paths, both set comparisons and the file checks, in the program's order. |
| RegistryPackage.VerifyRegistryPackage | src/registry/package-verifier.ts:157-255 | The verifier equals its specification, errors included. |
| RegistryPackage.MatchedFiles | src/registry/package-verifier.ts:186-237 | A successful match is a bijection of declared files and payload entries with equal paths, sizes and digests. |
| RegistryPackage.AcceptedIsBijection | src/registry/package-verifier.ts:157-255 | An accepted archive has exactly one manifest, and each declared file is exactly one other entry and conversely, with equal size and digest. |
| PackageAcceptance.VerifiesExactly | src/registry/package-verifier.ts:157-255 | An archive is accepted if and only if it can be read, holds one manifest entry that parses, the expectations fit, manifest and other entries agree file by file, and the running program is compatible. |
| PackageAcceptance.EvidenceIs | src/registry/package-verifier.ts:240-255 | The evidence of an accepted archive: digests and sizes of what was read, id and version of the manifest, and each declared file once in path order. |
| PackageAcceptance.MatchesExactly | src/registry/package-verifier.ts:185-237 | The match succeeds if and only if the declared paths are acceptable and distinct, the required ones are declared, and declared and packed files are the same with equal sizes and digests and no lifecycle script. |
| PackageAcceptance.MatchFailsWith | src/registry/package-verifier.ts:185-237 | Each error of the match names a violation that is there. |
| PackageAcceptance.CompatibleExactly | src/registry/package-verifier.ts:56-89 | Compatible if and only if, by SemVer precedence, the running version is not below the minimum nor above a stated maximum and the platform is listed where any is; and the exact error otherwise. |
| PackageAcceptance.ExpectationsFailWith | src/registry/package-verifier.ts:172-183 | The exact error when the expected id or version differs. |
| PackageAcceptance.ManifestFailsWith | src/registry/package-verifier.ts:160-170 | The exact error when the archive cannot be read or has not one manifest that parses. |
| RegistryPackage.BuiltIsAccepted | src/registry/package-builder.ts:256-322 | A built archive whose name fields begin with no signature and no mark is accepted exactly when version and platform are compatible and the expectations fit, with the build's digests, id, version and file list. |
| AtomicFiles.SuffixesDiffer | src/core/json.ts:31-32 | A target, its temporary file and its metadata file are three different paths. |
| AtomicFiles.WhatIsOwned | src/core/atomic-file.ts:83-119 | Recovery takes up every name below .dokion that ends in .tmp or .tmp.meta.json, the two such names of HARDENING.md, and nothing else. |
| AtomicRecovery.TemporariesSettle | src/core/atomic-file.ts:157-250 | The first loop performs justified operations only and leaves no temporary file and no metadata file next to one. |
| AtomicRecovery.MetadataSettles | src/core/atomic-file.ts:252-266 | The second loop performs justified operations only and leaves no owned file. |
| AtomicRecovery.RecoverySettles | src/core/atomic-file.ts:152-270 | A completed recovery performs only operations that destroy nothing, and leaves no owned file. |
| AtomicRecovery.RecoveryConverges | src/core/atomic-file.ts:121-270 | After any recoveries cut short by crashes, one completed recovery leaves no owned file, every temporary content at its target or in quarantine, and every other file untouched. |
| AtomicRecovery.RecoveryIsIdempotent | src/core/atomic-file.ts:152-270 | With no owned file left a recovery does nothing. |
| AtomicRecovery.TargetsNamedTmpAreLeftBehind | src/core/atomic-file.ts:158-249 | A target that itself ends in .tmp is left behind by a completed recovery: why such names are excluded. |
| RecoveryNames.NamesThatSettle | src/core/atomic-file.ts:83-270 | Whatever the files hold and in whatever order they are found, a completed recovery leaves no owned file, if and only if no temporary file with metadata has a target that is itself an owned name (unless the target's pair is a metadata file found alone). |
| RecoveryOutcome.FoundFileOutcome | src/core/atomic-file.ts:152-270 | A completed recovery installs a found temporary file (one in no way the target or helper of another found file) if its metadata vouches for it (target name, size, digest, valid JSON where it says so) and the target was free; drops it without quarantine if and only if vouched for and equal to the target; and otherwise quarantines it and its metadata, the target as it was. |
| RecoveryOutcome.FoundOrphanOutcome | src/core/atomic-file.ts:252-266 | Every metadata file found without its temporary file goes to quarantine as it was. |
| RecoveryOutcome.InstalledDespiteCrashes | src/core/atomic-file.ts:152-270 | However often recoveries are cut short, once one completes a vouched file whose target was free holds its place, and no copy went to quarantine. |
| RecoveryOutcome.VerdictFits | src/core/atomic-file.ts:157-250 | The reason recorded for a found file is the one that fits the files, and the action the one that fits the reason. |
| RecoveryOutcome.LeftIsVouched | src/core/json.ts:25-45 | The metadata the writer creates vouches for its complete temporary file. |
| RecoveryProcess.Disk.MoveToQuarantine | src/core/atomic-file.ts:121-143 | Performs the moves of the temporary and the metadata file that exist, or a prefix of them when killed. |
| RecoveryProcess.Disk.RecoverTemporary | src/core/atomic-file.ts:157-250 | One round of the first loop gives the file the outcome its metadata, content and target call for, and records the reason and action that fit; or performs a prefix when killed. |
| RecoveryProcess.Disk.RecoverAtomicWrites | src/core/atomic-file.ts:152-270 | A process that lives gives every temporary and orphaned metadata file found its outcome, with fitting records; one that is killed performs a prefix of the specified operations. |
| RecoveryProcess.CompletedSettles | src/core/atomic-file.ts:152-270 | The whole of what a completed run of the process leaves of the files it found. |
| RecoveryProcess.CompletedRecords | src/core/atomic-file.ts:152-270 | Its records are one for each found temporary and each lone metadata file, with the reason and action that fit what was found, when no target is itself the name of an owned file. |
| RecoveryProcess.ProcessIsAttempt | src/core/atomic-file.ts:152-270 | A run of the process is one attempt, complete exactly when the process lived. |
| RecoverySteps.RoundFollowsVerdict | src/core/atomic-file.ts:157-250 | The single looks of one round, with nobody else at work, end in the operations of the verdict. |
| AtomicWrites.StepKeepsInv | src/core/json.ts:25-55 | Every step of any writer or recovery keeps the invariant on temporary, metadata and target files, between states in which no writer is at work while a recovery deals with its files. |
| AtomicWrites.CrashAtomicity | src/core/json.ts:25-55 | In every interleaving of writers, crashes and recoveries in which no writer was at work while a recovery dealt with its files, the target holds its initial content or the complete content of one writer, and never goes missing. |
| AtomicWrites.WritersTouchTheirOwnFiles | src/core/json.ts:37-54 | In every such interleaving, a writer that renames, rewrites or removes the temporary or metadata file is the one that created it, and touches no other file. |
| AtomicWrites.VerifiedIsComplete | src/core/atomic-file.ts:199-220 | A temporary file that passes verification is the complete content of one writer. |
| AtomicWrites.RecoveryUnblocksWriters | src/core/atomic-file.ts:152-270 | A recovery that no writer gets in the way of and that comes to its end leaves both names free for the next writer, whatever other recoveries do meanwhile. |
| AtomicOverlap.AtomicWithoutLock | src/core/atomic-file.ts:152-270 | Over all interleavings, overlaps included, crash atomicity holds if and only if the target is none that recovery looks at or every first part of a content is itself allowed. |
| AtomicOverlap.OverlapInstallsAnyPart | src/core/json.ts:37-54 | For any target that recovery looks at and any first part of any content there is a run in which a writer renames another's unfinished temporary file, and the target then holds that part. |
| AtomicOverlap.TargetIsPartOfContent | src/core/json.ts:25-55 | Whatever overlaps, the target holds its initial content or a first part of one writer's content, and never goes missing. |
| AtomicWriter.Volume.WriteTextAtomic | src/core/json.ts:25-55 | Success means the target holds the content and both helper files are gone; every failure or death leaves the target old or new and complete, foreign helper files untouched, own ones first parts of content and metadata, and all other files unchanged; when no operation fails it succeeds exactly if both helper names were free, and otherwise leaves everything as it was. |
| Redaction.FirstMatchIsLongest | src/engine/command-runner.ts:207-207 | With needles in descending length the first match is a longest one. |
| Redaction.MatchesAt | src/engine/command-runner.ts:177-183 | True exactly when the needle is a prefix of the data at the offset. |
| Redaction.Find | src/engine/command-runner.ts:207-207 | Returns the first listed replacement that matches at the offset, if any. |
| Redaction.ReplaceDecidableBytes | src/engine/command-runner.ts:195-224 | The loop puts out and keeps back exactly what the decision function says. |
| Redaction.DecidedIsFinal | src/engine/command-runner.ts:195-224 | What is put out is a prefix of the reference pass whatever bytes follow, and the remainder continues it. |
| Redaction.DecidedAtEnd | src/engine/command-runner.ts:258-262 | At the end everything is decided and equals the reference pass. |
| Redaction.Redactor.Transform | src/engine/command-runner.ts:252-257 | One chunk in: output and carry are the decision on carry and chunk, and the carry stays shorter than the longest needle. |
| Redaction.ChunkingDoesNotMatter | src/engine/command-runner.ts:244-265 | However the output is cut, the stream puts out the bytes of one left-to-right longest-match pass over the whole. |
| Redaction.NothingToReplace | src/engine/command-runner.ts:248-248 | Without replacements the pass is the identity, as the early return assumes. |
| Redaction.BuildReplacements | src/engine/command-runner.ts:226-242 | The loop and the sort give the list that hides exactly the first redaction of each configured value behind its own token, longest needle first. |
| Redaction.BuiltReplacements | src/engine/command-runner.ts:226-242 | Each item pairs a non-empty configured value with the token of the first redaction that names it, no value twice, none missing, in descending length. |
| Redaction.ReplaceRedacts | src/engine/command-runner.ts:235-265 | One pass with that list is the redaction of the data: where the longest configured value starts its token is put out, and any other byte is itself. |
| Redaction.RedactionIsUnique | src/engine/command-runner.ts:235-265 | Only one output is the redaction of given data. |
| OutputSpool.Spool.WriteAll | src/execution/output-spool.ts:150-160 | Repeats partial writes until all bytes are stored, or fails without progress. |
| OutputSpool.Spool.Accept | src/execution/output-spool.ts:168-189 | One round keeps file, artifact hash, observed hash, counters and summary at exactly the bytes received so far, cut at their bounds. |
| OutputSpool.Spool.Finish | src/execution/output-spool.ts:196-211 | `truncated` is true exactly when more was observed than the artifact bound. |
| OutputSpool.SpoolRedacted | src/execution/output-spool.ts:125-211 | Artifact and summary are exact prefixes of one redaction pass over all output, the hashes cover exactly the stored and observed bytes, and `truncated` is exact, for any chunks and any partial writes; it fails exactly when the file refuses to make progress. |
| OutputSpool.SpoolCommandOutput | src/engine/command-runner.ts:362-380 | From environment and redactions to output: what is reported is the redaction of everything the child printed. |
| Playbook.CanonicalStepIs | src/artifacts/input-resolver.ts:46-62 | The lookup returns a step exactly when it alone carries the id. |
| DataflowContract.IndexOutputs | src/playbook/dataflow-contract.ts:52-71 | Maps each output name to the kind of its first declaration and reports exactly the repeated ones. |
| DataflowContract.IndexSteps | src/playbook/dataflow-contract.ts:29-84 | Indexes exactly the first step with each id, in order, and reports exactly the repeated ids and outputs. |
| DataflowContract.CheckInput | src/playbook/dataflow-contract.ts:101-162 | Reports exactly the violations of one typed input. |
| DataflowContract.Validate | src/playbook/dataflow-contract.ts:86-166 | Reports every violation and nothing else, and nothing at all exactly for well-formed playbooks. |
| DataflowContract.ValidExactlyWithoutViolation | src/playbook/dataflow-contract.ts:86-166 | Being well-formed (unique ids, unique output names, every typed input supplied by an earlier step it depends on) is the same as having no violation. |
| DataflowContract.TypedInputsAreAcyclic | src/playbook/dataflow-contract.ts:119-135 | In a valid playbook no chain of typed inputs leads back to its start. |
| DataflowContract.TypedInputsResolve | src/artifacts/input-resolver.ts:72-101 | In a valid playbook every typed input resolves to exactly one producer and output, of the declared kind, in an earlier step it depends on. |
| RunEngine.NextExecutionAttempt | src/engine/attempt-policy.ts:8-28 | A granted attempt number is at least 1. |
| RunEngine.ActiveStepsWereAttempted | src/engine/attempt-policy.ts:17-25 | In every reachable state an active step has an attempt, so the refusal for lacking one is unreachable, and resuming keeps the number. |
| RunEngine.AttemptsCountStarts | src/engine/runtime-engine.ts:222-234 | Each update changes a step's attempts by one exactly when the step enters IN_PROGRESS from an inactive status. |
| RunEngine.StepKeepsInv | src/engine/runtime-engine.ts:161-548 | Every update of the engine keeps the invariant and everything that is done. |
| RunEngine.RunKeepsInv | src/engine/runtime-engine.ts:134-548 | Every state saved by any sequence of run, crash and resume satisfies the invariant. |
| RunEngine.DoneIsFinal | src/engine/runtime-engine.ts:161-311 | A done step or stage never changes again and attempts never decrease, across any part of a run. |
| RunEngine.ShapeOfEveryState | src/engine/runtime-engine.ts:161-386 | For every playbook: of the stages that are looked up, done ones before at most one under way; all behind it untouched; inside it settled steps, at most one other, then only pending or blocked ones. |
| RunEngine.ShapeWithDistinctStages | src/engine/runtime-engine.ts:161-386 | With distinct stage ids that is the shape of all stages. |
| RunEngine.RepeatedStageBreaksTheShape | src/engine/runtime-engine.ts:46-50 | A run of a playbook that repeats a stage id whose second stage is untouched while the third is under way. |
| RunEngine.StageNeverFailsAtItsEnd | src/engine/runtime-engine.ts:289-296 | Closing a stage always makes it SUCCEEDED: the FAILED branch is unreachable. |
| RunEngine.StartedHadDependencies | src/engine/runtime-engine.ts:190-234 | In every saved state of every run, for each step that has been started every step it depends on, and every stage its stage depends on, has succeeded or was passed over, status by status. |
| RunEngine.WhatCompletedMeans | src/engine/runtime-engine.ts:161-311 | In a COMPLETED run every stage is done if and only if the stage ids are distinct; in a SUCCEEDED stage every step succeeded or was skipped. |
| RunEngine.CompletedWithoutTheSecondStage | src/engine/runtime-engine.ts:46-50 | A completed run with two stages of one id whose second stage is still PENDING. |
| RunEngine.RepeatedStagesStayPending | src/engine/runtime-engine.ts:46-50 | A stage that repeats an id is never looked up, so it and its steps stay PENDING. |
| RunEngine.WhatAStopMeans | src/engine/runtime-engine.ts:417-548 | A run that awaits the user has a step awaiting approval; a failed run a failed step in a failed stage; a blocked run a blocked step or stage. |
| RunEngine.ProducersFinishFirst | src/engine/runtime-engine.ts:190-234 | In every run of a valid playbook a typed input's one producer is done from before its consumer starts. |
| RuntimeEngine.Sweep | src/engine/runtime-engine.ts:329-334 | The loop over remaining steps changes exactly the pending ones. |
| RuntimeEngine.StageIsFound | src/engine/runtime-engine.ts:46-50 | The state lookup by id never misses, and an unfinished stage is found at its own place. |
| RuntimeEngine.StepIsFound | src/engine/runtime-engine.ts:52-56 | The step lookup by id finds the step's own place. |
| EngineReports.UpdateAgrees | src/engine/runtime-engine.ts:161-548 | Every update made in answer to what was heard keeps the saved state in agreement with the last thing heard about each stage and step, and about playbook and repository. |
| RuntimeEngine.Engine.Save | src/engine/runtime-engine.ts:452-457 | An update is saved whole or not at all, extends the run by one allowed update, and is an answer to what has been heard since the last. |
| RuntimeEngine.Engine.MarkStageInapplicable | src/engine/runtime-engine.ts:313-345 | The saved state is the specified one for the stage's policy; only MARK_BLOCKED ends the run. |
| RuntimeEngine.Engine.MarkStepInapplicable | src/engine/runtime-engine.ts:347-386 | The saved state is the specified one for the step's policy, and control goes on accordingly. |
| RuntimeEngine.Engine.AwaitApproval | src/engine/runtime-engine.ts:417-450 | Saves AWAITING_USER and a step awaiting approval, and ends the command. |
| RuntimeEngine.Engine.FailStep | src/engine/runtime-engine.ts:516-548 | Saves the failed or blocked step, the FAILED stage and the run's status, and ends the command. |
| RuntimeEngine.Engine.ExecuteStep | src/engine/runtime-engine.ts:190-286 | One round of the loop over steps: a capability that failed leaves the step FAILED or BLOCKED, its stage FAILED and the run ended; one that succeeded leaves the step SUCCEEDED and goes on; one that awaits approval, or approval that is missing, leaves AWAITING_APPROVAL and AWAITING_USER; an inapplicable step what its policy says; an error is thrown only where it must be. |
| RuntimeEngine.Engine.RunApproved | src/engine/runtime-engine.ts:246-286 | What the capability reported is what the saved step, stage and run show. |
| RuntimeEngine.Engine.ExecuteStage | src/engine/runtime-engine.ts:162-297 | One round of the loop over stages makes only allowed updates and leaves the stage done when it goes on. |
| RuntimeEngine.Engine.CloseStage | src/engine/runtime-engine.ts:288-296 | The stage is SUCCEEDED and the loop goes on. |
| RuntimeEngine.Engine.Execute | src/engine/runtime-engine.ts:161-311 | Wherever the process dies, all that was saved is a run of the transition system in which each step's status agrees with the last thing reported for it; when it returns the run is no longer RUNNING, and it throws only where a dependency or attempt count refuses. |
| RuntimeEngine.Engine.LoadPlaybook | src/playbook/load-playbook.ts:11-51 | Each refusal has its exact reason, in the program's order: no file, no JSON, schema or dataflow issues, a placeholder digest, a stage that is not sequential; otherwise the playbook is the one in the file. |
| RuntimeEngine.Engine.StartRun | src/engine/runtime-engine.ts:93-128 | A playbook that cannot be loaded is refused with the exact reason and nothing is saved; otherwise a new run of it replaces the saved state, unless the process dies first. |
| RuntimeEngine.Engine.ContinueRun | src/engine/runtime-engine.ts:134-159 | Resuming refuses an unloadable playbook, leaves an ended run as it is, and otherwise first saves RUNNING, TAINTED (exactly what a changed playbook gives) or STALE, and only ever extends the saved run. |
| ArtifactFiles.ParseDescriptor | src/artifacts/run-artifact-store.ts:311-349 | A parsed descriptor is the one in the bytes, passes the schema, and has the expected run, step, name, artifact id and both canonical paths. |
| ArtifactFiles.IdentityExactly | src/artifacts/run-artifact-store.ts:391-418 | What a call writes describes its request field by field, defaults included; a parsed descriptor has the candidate's identity if and only if it describes the request. |
| ArtifactCalls.StepKeepsOk | src/artifacts/run-artifact-store.ts:205-233 | Every single operation of any call, with everybody else anywhere in theirs, keeps the store's invariant and changes no published file. |
| ArtifactCalls.WrittenOnce | src/artifacts/run-artifact-store.ts:205-233 | In every interleaving of calls, torn writes, failures and crashes, a published file never changes or disappears, blobs hash to their digests and every binding's blob is present. |
| ArtifactCalls.OthersAreReliable | src/artifacts/run-artifact-store.ts:205-233 | Whatever other calls do between two operations of a call leaves published files and that call's temporary files alone. |
| ArtifactCalls.TwoSuccessesAgree | src/artifacts/run-artifact-store.ts:360-471 | In every interleaving, two calls for one run, step and output that return, return the same descriptor. |
| ArtifactCalls.LeftoverIsReached | src/artifacts/run-artifact-store.ts:153-167 | A run in which a call dies between linking and removing its temporary file, leaving a second link. |
| ArtifactCalls.LeftoverStays | src/artifacts/run-artifact-store.ts:222-232 | Such a second link stays for the rest of every run. |
| ArtifactCalls.LeftoverBlocksCalls | src/artifacts/run-artifact-store.ts:153-167 | No later call that needs the file gets past it or returns. |
| ArtifactCalls.DeathAfterLinking | src/artifacts/run-artifact-store.ts:222-232 | A call that dies after its link leaves the published name with a second one. |
| ArtifactFiles.LinkedDoes | src/artifacts/run-artifact-store.ts:222-228 | Linking a complete blob, or a binding next to its blob, to a free name keeps the invariant and changes no published file. |
| ArtifactStore.Disk.Publish | src/artifacts/run-artifact-store.ts:205-233 | Publishes all the bytes at once, finds the name taken, fails, or dies leaving at most its temporary file or a second link to the complete file, under any interference; without a leftover the file has one name. |
| ArtifactStore.UnreadableObstructs | src/artifacts/run-artifact-store.ts:441-465 | A published name that was taken and at some moment not readable stood in the way of the call, whatever the other calls did. |
| ArtifactStore.Disk.ReadBounded | src/artifacts/run-artifact-store.ts:169-203 | Returns the content of a singly linked file within its bound; fails only if the file was not one at some moment, and never if it was one from the start. |
| ArtifactStore.Disk.ReadDescriptor | src/artifacts/run-artifact-store.ts:351-358 | Returns the descriptor the binding holds. |
| ArtifactStore.Disk.ReadArtifact | src/artifacts/run-artifact-store.ts:473-494 | Returns the bound descriptor and bytes of its digest and size; a success means both files are readable, and a failure that one of them was not at some moment since the start. |
| ArtifactStore.Disk.Materialize | src/artifacts/run-artifact-store.ts:360-471 | Performs a run of the call system; a success leaves a binding that parses to the returned descriptor, which describes the request, and an artifact that can be read unless a link was left behind; a refused request gets its exact error; and a call otherwise fails only if an operation failed, or a file stood in its way that could not be read or did not fit. |
| ArtifactFiles.StaysMaterialized | src/artifacts/run-artifact-store.ts:426-440 | An artifact that is there and readable stays so, whatever other calls do. |
| ArtifactFiles.ReadsBackTheBytes | src/artifacts/run-artifact-store.ts:473-494 | Without hash collisions, what is read back is the bytes of any call that succeeded for that name. |
| ScopeOverlap.GlobRegex | src/capability/conflict-detector.ts:63-80 | The loop that skips the second of two stars compiles the pieces paired from the left. |
| ScopeOverlap.OverlapIsSymmetric | src/capability/conflict-detector.ts:82-105 | The overlap test is symmetric. |
| ScopeMeaning.OverlapExactly | src/capability/conflict-detector.ts:82-105 | Two scopes are found to overlap if and only if: either covers everything; both are plain and equal; the plain one is taken by the other's expression; or both have wildcards and what stands before their first and behind their last ones meets. An empty one never. |
| ScopeMeaning.NormalizedExactly | src/capability/conflict-detector.ts:49-51 | The normalized scope is the scope with slashes for backslashes, without one leading dot-slash and without slashes at its end. |
| ScopeMeaning.GlobLaws | src/capability/conflict-detector.ts:63-80 | What each kind of piece takes: nothing, any text (or any within a line), any text without a slash, one character but a slash, or itself. |
| ScopeMeaning.LineTerminatorsAre | src/capability/conflict-detector.ts:68-69 | The characters the dot of the expression does not take: line feed, carriage return, U+2028 and U+2029. |
| ScopeOverlap.MatchStartsWithPrefix | src/capability/conflict-detector.ts:53-56 | Every covered path starts with the fixed prefix. |
| ScopeOverlap.MatchEndsWithSuffix | src/capability/conflict-detector.ts:58-61 | Every path covered by a scope with wildcards ends with the fixed suffix. |
| ScopeOverlap.RegexIsGlob | src/capability/conflict-detector.ts:63-80 | Within one line the regular expression accepts exactly what the glob covers. |
| ScopeOverlap.OverlapsAreReported | src/capability/conflict-detector.ts:82-105 | For two scopes that cover one path: reported if and only if they are equal, one covers everything, both have wildcards, or the wildcard side's expression matches within lines. |
| ScopeOverlap.NoFalseNegatives | src/capability/conflict-detector.ts:82-105 | Two scopes that cover one path without line terminators are always reported. |
| ScopeOverlap.LineTerminatorIsMissed | src/capability/conflict-detector.ts:68-69 | With a line terminator an overlap is missed: a concrete pair for each terminator. |
| ScopeOverlap.WriteScopeConflicts | src/capability/conflict-detector.ts:157-184 | Reports exactly the pairs of parallel capabilities of one stage that have scopes found to overlap, once each and in order, with the first two scopes that meet. |
| ScopeOverlap.SharedPathsMeet | src/capability/conflict-detector.ts:157-184 | Parallel capabilities whose scopes share a one-line path are found to overlap. |
| ShellTokens.TokenizeLiteralShell | src/findings/native-scanner-output.ts:72-147 | The loop equals the tokenizer function, errors included. |
| ShellTokens.CommandTokens | scripts/validate-release-truth.ts:206-242 | The loop equals the lenient tokenizer function, errors included. |
| ShellGrammar.StrictExactly | src/findings/native-scanner-output.ts:72-147 | The strict tokenizer accepts exactly the sequences of spaces, bare characters, escapes and quoted texts of its grammar, with what stands between spaces as tokens; it refuses any other command, with the error of the first fault behind such a sequence. |
| ShellGrammar.LenientExactly | scripts/validate-release-truth.ts:206-242 | The lenient tokenizer accepts exactly the sequences of its grammar, with the non-empty tokens. |
| ShellTokens.RenderedReadsBack | src/findings/native-scanner-output.ts:72-147 | Any list of tokens rendered in single quotes, quotes and empty tokens included, reads back exactly. |
| ShellTokens.LenientFollows | scripts/validate-release-truth.ts:206-242 | From any corresponding point, where the strict tokenizer succeeds the lenient one does with the same non-empty tokens. |
| ShellTokens.TokenizersAgree | scripts/validate-release-truth.ts:206-242 | A command the strict tokenizer accepts has the same non-empty tokens for both. |
| AutoRunner.SelectNextAction | src/autopilot/next-action.ts:20-133 | The nested loops and the scan equal the selection function. |
| AutoRunner.WhatIsSelected | src/autopilot/next-action.ts:85-132 | Selects exactly the first declared step that has not succeeded when its dependencies have, blocks exactly when they have not, and completes exactly when all have. |
| AutoRunner.MarkedSucceeds | src/autopilot/auto-playbook-runner.ts:354-375 | Marking a step SUCCEEDED adds just its id to the succeeded set; marking an unsucceeded one FAILED changes nothing in it. |
| AutoRunner.Runner.MarkStepInState | src/autopilot/auto-playbook-runner.ts:354-375 | The first stage is created when missing and the step updated or appended, as specified. |
| AutoRunner.Runner.RecordSuccess | src/autopilot/auto-playbook-runner.ts:236-242 | Counters, cost and state after a success, keeping the bookkeeping invariant. |
| AutoRunner.Runner.RecordFailure | src/autopilot/auto-playbook-runner.ts:244-249 | Counters, cost and state after a failure, keeping the bookkeeping invariant. |
| AutoRunner.Runner.Turn | src/autopilot/auto-playbook-runner.ts:176-223 | One turn records what the callbacks answered: success exactly when executed and verified, at once or after a repair; otherwise failure, with the change rolled back where that is confirmed, and a stop where it is not. |
| AutoRunner.LogGrows | src/autopilot/auto-playbook-runner.ts:147-176 | A further turn for the first open step keeps the log of turns in order. |
| AutoRunner.Runner.RunToAbsoluteSuccess | src/autopilot/auto-playbook-runner.ts:118-234 | Every number in the report follows from what the callbacks answered turn by turn; each turn was for the first step that had not succeeded by then, its dependencies met; the loop ends only when the target is reached, the turns are used up, the breaker trips, nothing can be selected or a rollback is not confirmed. At most c*(n+1) steps are executed and the budget is overrun by at most one cent with the breaker on; `completed` exactly when the target is reached. |
| AutoRunner.PrefixGrows | src/autopilot/next-action.ts:95-125 | Adding the first open step to a prefix of the declared order gives a prefix. |
| AutoRunner.FreshIsPrefix | src/autopilot/auto-playbook-runner.ts:354-375 | A state in which nothing has succeeded is such a prefix. |
| AutoRunner.CoveredBounds | src/autopilot/auto-playbook-runner.ts:139-145 | Fewer than c failures before each success and at most c at the end bound all executions by c*(n+1). |
| Semver.Parse | src/registry/digests.ts:44-56 | A parsed version has three core numbers and, if any, a non-empty prerelease of valid identifiers; which text is which version is SemverText.ParsesExactly. |
| SemverText.ParsesExactly | src/registry/digests.ts:44-56 | A text is parsed into a version if and only if it is that version printed, its three numbers in order and without leading zeros, its prerelease, and any valid build metadata behind it. |
| Semver.CompareExactSemver | src/registry/digests.ts:71-97 | The two index loops equal the comparison function. |
| Semver.NumericSpelledOnce | src/registry/digests.ts:62-66 | Numeric identifiers with equal values are equal. |
| Semver.IdentifierOrder | src/registry/digests.ts:58-69 | Identifiers compare as rules 11.4.1 to 11.4.3 say, antisymmetrically, and equal only when identical. |
| Semver.ComparesByPrecedence | src/registry/digests.ts:71-97 | Negative, positive and zero results are exactly the precedence of section 11 of SemVer 2.0.0 and its converse, and equality of core and prerelease. |
| Semver.ComparesTransitively | src/registry/digests.ts:71-97 | The order is transitive, strictly so when one step is strict. |
| Semver.BuildIsIgnored | src/registry/digests.ts:45-54 | Build metadata does not change the parsed version. |
| Bytes.CompareTransitive | src/registry/digests.ts:5-7 | The bytewise order is transitive. |
| Bytes.CompareZero | src/registry/digests.ts:5-7 | The bytewise order is zero exactly for equal texts. |
| Bytes.CompareIs | src/registry/digests.ts:5-7 | Negative exactly when the first text is a proper prefix or lower at the first difference. |

## Left out

- Real files, processes, streams, git, clocks and the network: file operations act on maps, and what a child process, a capability or a callback does is a free choice.
- SHA-256, UTF-8, NFC, case folding, JSON printing and parsing, Ajv schemas and the regular expression engine: functions with the laws stated in `PackagePaths.Lawful`, `AtomicFiles.Lawful`, `RegistryPackage.Services.Faithful` and `ArtifactFiles.Services.Lawful`. Digests of different contents are taken to differ where a law says so.
- Power loss: only process crashes are modelled, and the atomic writer does not sync its files.
- Path texts of the atomic writer: a path is read from its suffixes, and a quarantined file keeps its path instead of the flattened name; the log of recovery records is not written.
- A recovery's walk over the directories is one look at the files, and reading one file is one look; every file operation and every look of `recoverAtomicWrites` after that is a step of its own.
- Several targets at once in the system of writers: the recoveries deal with every file, the writers write one path. A target whose own name is that of a temporary or metadata file, or that lies in the quarantine directory, is not one the program writes.
- AtomicRecovery.RecoveryConverges: targets whose own names are those of temporary or metadata files are excluded, since a later round may move their content on; when such files are left behind is `RecoveryNames.NamesThatSettle`.
- RegistryPackage.CollectPayload: the checks of source directories and links before each read are left out; a source file is present with its bytes or missing.
- RegistryPackage.BuildRegistryPackage: configuration parsing, source checks, the duplicate-free sorting of declared capabilities, manifest fields that are only copied and publication of the built file are left out.
- Messages, instance paths and details of errors; an error is its code, and a dataflow issue the position it concerns.
- Playbook entries that are not records with string ids: the schema check before `validatePlaybookDataflow` has already refused them.
- Fields of the run state the engine only copies or appends to (times, reasons, evidence, findings, approvals), the event log and the report; the revision check of the state store, which is one atomic cell here.
- The worktree policy check and the repository inspection before a run starts.
- Step failure policies other than MARK_BLOCKED: the engine treats them alike.
- Resolution of step inputs beyond the lookup of the producer: the checks of provenance and of optional inputs read stored artifacts.
- The checks of an artifact request are two predicates, those before the size check and those after it, and the directory checks before publication are left out.
- Semver.Parse: core numbers are exact integers, while the program rounds numbers above 2^53 to doubles and may call two such versions equal.
- AutoRunner.Runner.RunToAbsoluteSuccess: cost is counted in cents and completion in exact fractions, because floating point rounding is not the point; the approval gate is left out since the FROM_PLAYBOOK policy always allows.
- Other conflict collectors, shell flag extraction, report rendering, audits, scoring, the command line and the frontend, which would only add easy members.
- The package cache and its time-based lock, and the checkpoint store.
