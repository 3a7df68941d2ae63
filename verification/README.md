# Models of the audit tooling

This project models the parts of the audit tooling that carry its guarantees, and proves what they
promise. It has five parts.

* **The no-replace publish protocol** (`Publish`, `PublishSafety`, `PublishPaths`, `PublishProgram`,
  `PublishOutcomes`, `PublishErrors` and `PublishDescriptors`, with the short-write loop in `WriteLoop` and the budgeted
  reads in `TaskRoot`). Any number of
  publishers run against one file system, one system call at a time; between two calls the
  environment may create, rename, unlink and link names at will. Every call may also be interrupted
  or fail. The step machine carries the safety theorems; `PublishProgram` is the same code as
  structured functions with loops, exceptions and closing blocks. It is proved to make exactly the
  machine's calls, to end with its outcome and to hold as many descriptors, for every sequence of
  replies.
* **The snapshot check** (`Json`, `Links`, `Snapshot`, `SnapshotRules`): request records, the `Link`
  header, the page chain and the comments found on it. `SnapshotRules` lists everything that must hold
  with the code it is reported under, in order, and the check is proved to report the first broken rule.
* **The GPU batch-policy query** (`AbiQuery`, `AbiTheorems`, `AbiRepeat`, `AbiCompare`): the
  reference semantics byte for byte, its frame, repetition, precedence and position independence, its
  three deliberate defects, and the comparison of two consumers.
* **GNU `ar` archives** (`ArchiveFormat`, `ArchiveWalkers`, `ArchiveRoundTrip`, `ArchiveContract`,
  `ArchiveMutants`): the parser, the block cutter, a writer to read back from, and the three-member
  contract with the three mutants derived from an accepted archive.
* **Two report tools** (`CtNamespace`, `Analyzer`, `AnalyzerLists`): the comment-stripping source scanner with its
  greedy counter and pass/fail bookkeeping, and the regression diff with the platform divergence.

Loops and objects of the sources are methods and classes here, each proved equal to a function, and
the theorems are about these functions. So that a function and its code cannot be wrong together, what
they decide is also stated without them: error codes by the kernel's replies, acceptance and rejection
by fields, numbers and texts, lists by their members and order. `dafny verify dfyconfig.toml` checks everything.

## What the proofs found

* The error FSYNC_FAILED without a leftover name does not tell whether the destination was published:
  the fsyncs of the file and of the directory raise it alike. Two runs from one start end with it, one
  bound and one not (`PublishOutcomes.SameErrorTwice`). Every other error tells
  (`PublishOutcomes.ErrorLeavesBindingOpen`).
* When the directory fsync fails after a named temporary file was linked, the destination is bound and
  the temporary entry exists, but the error carries no leftover name, unlike every other failure
  (`PublishSafety.LeftoverReport`; a run that gets there: `PublishOutcomes.DirectoryFsyncHidesLeftover`).
* Each error code of a publish goes with one way for the kernel's replies to end
  (`PublishErrors.ErrorsExactly`).
* A publish leaves a directory open exactly if a component was missing, created and gone again sixteen
  times in a row (`PublishDescriptors.LeaksExactlyAfterRounds`; such a run:
  `PublishDescriptors.UncreatableComponentLeaks`). Where names are only added this cannot happen
  (`PublishDescriptors.AddingEnvironmentLeaksNothing`).
* `_wraps` is exact only for the size modulo the address space (`AbiTheorems.WrapsExactly`), and it also
  refuses a range that ends with the very last address (`AbiTheorems.LastAddressIsRefused`). A
  successful query whose 72 result bytes run past the end of the arena lengthens it, because a slice
  assignment does (`AbiRepeat.TouchesOnlyResult`; such a call: `AbiCompare.ArenaGrows`).
* A subset of an archive's blocks still parses exactly if it keeps the extended-name table or needs
  none (`ArchiveWalkers.AnyChoiceParses`); the comment in the source claims it for every subset. An
  archive with one long name fails without its table (`ArchiveRoundTrip.TableIsNeeded`).
* A reordered mutant fails by its order term only if the object's block is whole
  (`ArchiveMutants.ReorderedTerm`): a cut one shifts what is parsed after it, and the mutant is then
  rejected for some reason (`ArchiveContract.ReorderingIsCaught`).
* The stated page list is compared loosely (`Snapshot.PageSequenceExactly`), so `[true, 2.0]` passes for
  `[1, 2]` (`Snapshot.LoosePageSequence`).
* Both report tools sort keys whose section may be missing. Sorting raises a TypeError exactly if one
  check id occurs with and without a section (`Analyzer.SortKeys`); one flat and one sectioned event of
  a check are enough (`Analyzer.MixedSectionsFail`), and no way of sorting avoids the comparison that
  raises (`Analyzer.NeighboursClash`). With fewer than two platforms the divergence result has no count,
  which its command line reads.
* A source file over 4 MiB is audited as an empty one (`CtNamespace.UnreadableFiles`), and an empty
  prohibited pattern makes the counting loop run forever (`CtNamespace.CountingEnds`).

## Model

| member | source | states |
|---|---|---|
| WriteLoop.WriteAll | audit/gh335_public_authority_validator.py:698-715 | returns only when exactly the data has been appended; on error a prefix has been; for every sequence of kernel replies |
| WriteLoop.CallBound | audit/gh335_public_authority_validator.py:698-715 | at most 65 uninterrupted write calls per byte, whatever the kernel answers |
| WriteLoop.CallBoundIsTight | audit/gh335_public_authority_validator.py:695-715 | a kernel exists that needs all of them and still finishes |
| WriteLoop.EndsExactly | audit/gh335_public_authority_validator.py:698-715 | how the loop ends by the replies it used: written what they accept, failed exactly if the last one failed, given up exactly after 65 that accepted nothing, interruptions not counted |
| TaskRoot.Handle.Read | audit/gh335_public_authority_validator.py:588-590 | a read returns a non-empty piece of what is left, or nothing at the end |
| TaskRoot.ReadArtifact | audit/gh335_public_authority_validator.py:559-599 | the chunked read gives the whole leaf or rejects it for its size, independently of the chunking |
| TaskRoot.ReadTaskRoot | audit/gh335_public_authority_validator.py:616-636 | three leaves are rejected for size exactly if one exceeds 16 MiB or their sum 24 MiB; the first bad leaf decides |
| TaskRoot.JudgeExactly | audit/gh335_public_authority_validator.py:616-636 | when each verdict is given, in bytes: too large, no identity, ready missing, or the three contents |
| Publish.AfterKeepsAim | audit/gh335_public_authority_validator.py:880-1019 | no reply changes what is published where, and only a successful link binds |
| Publish.StepKeepsInv | audit/gh335_public_authority_validator.py:749-1019 | every step of every publisher and of the environment keeps the invariant: what a publisher's file holds at each point, its descriptors, its temporary name |
| PublishSafety.CallOnlyAdds | audit/gh335_public_authority_validator.py:880-1019 | no call rebinds or removes an entry; the destination is bound only to a file that holds exactly the data, already fsynced |
| PublishSafety.TempNameTells | audit/gh335_public_authority_validator.py:850-850 | a temporary name is a dot, the name, a dot and 24 hex digits; it is not the destination and determines name and token |
| PublishSafety.AtMostOneBinder | audit/gh335_public_authority_validator.py:880-905 | over every run in which the environment keeps a name, at most one publisher binds it, none if it was taken, and the winner's data stays |
| PublishSafety.WinnerStays | audit/gh335_public_authority_validator.py:880-905 | a published file stays complete and fsynced under its name as long as the environment keeps the name |
| PublishSafety.BoundMeansLinked | audit/gh335_public_authority_validator.py:880-971 | in every run a publisher counts as having bound its destination exactly if one of its links succeeded |
| PublishSafety.ReturnMeansPublished | audit/gh335_public_authority_validator.py:974-1019 | a publisher that returns has bound its destination, which holds exactly its data unless the environment moved it |
| PublishSafety.OneWinnerPerName | audit/gh335_public_authority_validator.py:974-1019 | two publishers never both bind one kept name |
| PublishSafety.LeftoverReport | audit/gh335_public_authority_validator.py:908-971 | what each return and error tells of the binding; a leftover name is reported truly, and goes unreported exactly when a bound named publish fails in the directory fsync |
| PublishOutcomes.SameErrorTwice | audit/gh335_public_authority_validator.py:940-971 | two runs from one start raise the same exception, one with the destination bound, one without |
| PublishOutcomes.ErrorLeavesBindingOpen | audit/gh335_public_authority_validator.py:718-726 | over all runs, an error leaves the binding open exactly if it is FSYNC_FAILED without a leftover name; any other means not bound, a return means bound |
| PublishOutcomes.DirectoryFsyncHidesLeftover | audit/gh335_public_authority_validator.py:936-937 | a concrete run that ends bound, with a leftover entry and without its name |
| PublishErrors.ErrorsExactly | audit/gh335_public_authority_validator.py:698-1019 | over all runs, what a finished publish raised by its last replies: NO_REPLACE_VIOLATION exactly if the link was answered that the name exists, LINK_FAILED for another errno, ATOMIC_PRIMITIVE_UNAVAILABLE for an unsupported named link, WRITE_FAILED after a failed write, ZERO_WRITE after 65 empty ones, FSYNC_FAILED for an errno of an fsync, TMP_CREATE_FAILED after 64 taken names, DIR_CREATE_FAILED after 16 rounds, SYMLINK_ANCESTRY for a symlink or a non-directory |
| PublishErrors.TakenNameIsRefused | audit/gh335_public_authority_validator.py:897-901 | a concrete run in which another file takes the name first: NO_REPLACE_VIOLATION without a leftover, and the other file stays |
| PublishErrors.AncestryFirst | audit/gh335_public_authority_validator.py:530-551 | in every run the looks at the destination and at up to 256 ancestors come first, and a symlink or an errno ends them |
| PublishSafety.DescriptorBalance | audit/gh335_public_authority_validator.py:749-812 | the caller sees an open descriptor by the error code; when it happens is in the next three rows |
| PublishDescriptors.LeaksExactlyAfterRounds | audit/gh335_public_authority_validator.py:749-812 | a finished publish has left its directory open exactly if its last replies were sixteen rounds of a missing component that was then created |
| PublishDescriptors.UncreatableComponentLeaks | audit/gh335_public_authority_validator.py:766-812 | a concrete run that does: the environment removes the directory after each creation |
| PublishDescriptors.AddingEnvironmentLeaksNothing | audit/gh335_public_authority_validator.py:749-812 | while names are only added, every publish that finishes has closed everything |
| PublishPaths.RunStaysOnPath | audit/gh335_public_authority_validator.py:782-815 | while names are only added, the pinned directory is the one the walked part of the path names |
| PublishPaths.OneWinnerPerPath | audit/gh335_public_authority_validator.py:749-1019 | then of all publishers to one path at most one binds it, even if they race to create its directories |
| PublishPaths.PublishedAtPath | audit/gh335_public_authority_validator.py:974-1019 | while names are only added, a publish that returns has put exactly its data, fsynced, at its path |
| PublishPaths.WorkBoundsCalls | audit/gh335_public_authority_validator.py:698-1019 | every uninterrupted call uses up at least one unit of a publisher's remaining work |
| PublishPaths.CallsByCounts | audit/gh335_public_authority_validator.py:698-1019 | the calls that are bounded are all of the publisher that are not interrupted, counted one by one |
| PublishPaths.PublishIsBounded | audit/gh335_public_authority_validator.py:530-1019 | a publish of n bytes below k directories makes at most 130 n + 32 k + 74 uninterrupted calls, whatever others do; every path the ancestry check looks at counts, closes do not (they are bounded with the program), and the bound is not claimed to be reached |
| PublishProgram.RunFollows | audit/gh335_public_authority_validator.py:974-1019 | in every interleaved run each publisher is where its own replies take it, so the program's sequential account holds there |
| PublishProgram.FollowFirst | audit/gh335_public_authority_validator.py:974-1019 | following a list of replies is following the first and then the rest |
| PublishProgram.Process.constructor | audit/gh335_public_authority_validator.py:1006-1006 | a publish starts with nothing open and nothing created |
| PublishProgram.Process.Ask | audit/gh335_public_authority_validator.py:698-1019 | the program may only make the system call that the machine makes next, with the same name or offset |
| PublishProgram.NamesAct | audit/gh335_public_authority_validator.py:749-947 | what a call does with the name it is given: open what is there, make the directory, look, or link the file there |
| PublishProgram.FileCallsAct | audit/gh335_public_authority_validator.py:698-726 | a write appends the data from its offset on as far as it is accepted, and an fsync saves what is written |
| PublishProgram.Process.WriteAll | audit/gh335_public_authority_validator.py:698-715 | the write loop ends written, or raises exactly as the machine does after an error or 65 empty writes |
| PublishProgram.Process.FsyncFileOrRaise | audit/gh335_public_authority_validator.py:718-726 | the file fsync is retried when interrupted and raises otherwise |
| PublishProgram.Process.FsyncDirOrRaise | audit/gh335_public_authority_validator.py:718-726 | the directory fsync decides between returning and the same FSYNC_FAILED as a failed file fsync, without a leftover name |
| PublishProgram.Process.Deliver | audit/gh335_public_authority_validator.py:927-930 | write, fsync and link in this order end linked, with the error that stopped them, or with an unnamed link that is unsupported |
| PublishProgram.Process.PublishFromFd | audit/gh335_public_authority_validator.py:880-905 | the link succeeds, or raises NO_REPLACE_VIOLATION for a taken name, ATOMIC_PRIMITIVE_UNAVAILABLE for an unsupported link and LINK_FAILED for any other errno; only an unsupported unnamed link may go on to the fallback |
| PublishProgram.Process.MkstempInDir | audit/gh335_public_authority_validator.py:844-858 | a fresh temporary name within 64 attempts, or the error the machine ends with |
| PublishProgram.Process.PublishViaNamedTemp | audit/gh335_public_authority_validator.py:908-937 | the fallback returns or raises what the machine does, with the leftover name it reports |
| PublishProgram.Process.OpenTmpfile | audit/gh335_public_authority_validator.py:818-841 | an unnamed file, or the sign that the fallback is needed |
| PublishProgram.Process.RefuseSymlink | audit/gh335_public_authority_validator.py:941-947 | only a missing or non-symlink destination is published to |
| PublishProgram.Process.PublishUnnamed | audit/gh335_public_authority_validator.py:950-969 | the unnamed file is published, raises as the machine does, or is given up for the fallback, and is closed each time |
| PublishProgram.Process.PublishWithinPinnedDir | audit/gh335_public_authority_validator.py:940-971 | symlinked destinations are refused; the fallback is taken exactly when the unnamed file or its link is unsupported |
| PublishProgram.Process.RequireNoSymlinkAncestry | audit/gh335_public_authority_validator.py:530-551 | the destination and then each ancestor, 256 at most, is looked at; a symlink refuses |
| PublishProgram.Process.OpenOrCreateDirComponent | audit/gh335_public_authority_validator.py:749-779 | a component is opened or created within 16 rounds, and a link in its place is refused |
| PublishProgram.Process.OpenDirChain | audit/gh335_public_authority_validator.py:782-815 | exactly one directory stays open at each point; a failure closes it unless it is the uncreatable component |
| PublishProgram.Process.PublishNoReplace | audit/gh335_public_authority_validator.py:974-1019 | for every sequence of replies the program ends with the machine's outcome and its number of open descriptors, after at most k + 3 closes |
| Links.ParsePartExactly | audit/gh335_public_authority_validator.py:258-261 | a part of the header parses exactly if it spells a link in the coded shape, and then to that link |
| Links.SplitOfJoin | audit/gh335_public_authority_validator.py:257-257 | splitting at commas undoes joining with commas |
| Links.JoinOfSplit | audit/gh335_public_authority_validator.py:257-257 | joining the split parts gives the header back |
| Links.ParseLinkNext | audit/gh335_public_authority_validator.py:253-268 | the loop over the parts computes the header's meaning |
| Links.LinkNextExactly | audit/gh335_public_authority_validator.py:253-268 | for every header value: refused, no next page, or the expected one, by the links it spells (section 3 of RFC 8288, restricted) |
| Links.HasWordExactly | audit/gh335_public_authority_validator.py:261-261 | the relation is looked up among the words that splitting at white space gives |
| Links.TargetsExactly | audit/gh335_public_authority_validator.py:256-268 | a header has no target exactly if no link has the word `next`, and the one target exactly if a single link has it and points there |
| Links.SpacesExactly | audit/gh335_public_authority_validator.py:258-261 | the 29 code points that count as white space |
| Snapshot.RecordExactly | audit/gh335_public_authority_validator.py:293-350 | a record is accepted exactly if it was fetched from its place's address and states the length and, twice, the hash of its one valid body |
| Snapshot.VerifyChain | audit/gh335_public_authority_validator.py:421-438 | the loop accepts exactly a chain without fault, the first fault decides the code, and what is gathered is hashes, pages, bodies and total |
| Snapshot.ChainExactly | audit/gh335_public_authority_validator.py:421-438 | no fault exactly if each record fits its place, the total is within 8 MiB, and each page links to the next one and the last to none |
| Snapshot.CollectComments | audit/gh335_public_authority_validator.py:444-451 | reports the first bad entry, and accepts exactly pages of comments on the issue whose ids are positive and pairwise different over all pages |
| Snapshot.IssueProjects | audit/gh335_public_authority_validator.py:353-370 | accepted is exactly issue 335 of the repository with well-typed fields, and every listed field is kept under its name |
| Snapshot.CommentProjects | audit/gh335_public_authority_validator.py:373-384 | accepted is exactly a comment of the given issue with well-typed fields, and every listed field is kept under its name |
| Snapshot.VerifyStory | audit/gh335_public_authority_validator.py:443-464 | issue, as many comments as it counts, special comment, and the snapshot's own account of them |
| Snapshot.VerifySnapshot | audit/gh335_public_authority_validator.py:410-466 | accepts exactly what fits and returns all hashes and those of pages 1 to k; otherwise the error of the first part that does not fit; both are spelled out by `SnapshotRules.SnapshotByRules` |
| SnapshotRules.SnapshotByRules | audit/gh335_public_authority_validator.py:410-466 | a snapshot is accepted exactly if it breaks no rule of a list stated in fields, numbers and texts, and otherwise the code of the first broken rule is reported |
| SnapshotRules.RecordByRules | audit/gh335_public_authority_validator.py:293-350 | the same for one record: its first broken rule is its error, and a good one has the body, link and hash it states |
| SnapshotRules.ChainByRules | audit/gh335_public_authority_validator.py:421-438 | the same for the loop over the records |
| SnapshotRules.CommentsByRules | audit/gh335_public_authority_validator.py:445-451 | the same for the pages: no list, no comment on the issue, or an id that is not positive or not new |
| SnapshotRules.StoryByRules | audit/gh335_public_authority_validator.py:443-464 | the same for issue, comments, their number, the special comment, the repeated projection, the drift report and the claims |
| SnapshotRules.AcceptedTotals | audit/gh335_public_authority_validator.py:440-441 | every accepted snapshot states the sum of its body lengths and counts its pages 1 to k |
| SnapshotRules.AcceptedHashes | audit/gh335_public_authority_validator.py:427-429 | what is returned: the hash of every body in order, and of those the pages' |
| SnapshotRules.DigitsRead | audit/gh335_public_authority_validator.py:308-310 | a page number is written in decimal digits without a leading zero |
| Json.EqualExactly | audit/gh335_public_authority_validator.py:233-235 | two values are equal exactly if they differ only in how their numbers are typed |
| Snapshot.PageSequenceExactly | audit/gh335_public_authority_validator.py:441-441 | which stated page lists are accepted for k pages |
| Snapshot.LoosePageSequence | audit/gh335_public_authority_validator.py:441-441 | a list that is accepted for two pages although it holds a boolean and a float |
| AbiTheorems.MaskedIsMod | audit/gpu_batch_policy_abi_core_check.py:210-219 | masking an address is reducing it modulo the address space |
| AbiTheorems.WrapsExactly | audit/gpu_batch_policy_abi_core_check.py:210-213 | the wrap test is exactly that base plus size reaches the size of the address space, for sizes of the pointer's width |
| AbiTheorems.LastAddressIsRefused | audit/gpu_batch_policy_abi_core_check.py:210-213 | so a range that ends with the last address is refused, although it does not leave the address space |
| AbiTheorems.OverlapExactly | audit/gpu_batch_policy_abi_core_check.py:216-219 | without wrapping, the overlap test is exactly that two non-null ranges share an address |
| AbiTheorems.MaskBits | audit/gpu_batch_policy_abi_core_check.py:225-231 | the masks: no unknown bit exactly below 32, CPU eligible exactly by its bit |
| AbiTheorems.ProductTest | audit/gpu_batch_policy_abi_core_check.py:308-310 | the division test is exactly that the product fits 64 bits |
| AbiTheorems.SuccessExactly | audit/gpu_batch_policy_abi_core_check.py:240-314 | success exactly on safe addresses, a full result and a well-formed request |
| AbiTheorems.StatusExactly | audit/gpu_batch_policy_abi_core_check.py:240-314 | every call gets the status its first defect deserves, and a rejected one clears exactly the bytes of that status |
| AbiTheorems.ClearedExactly | audit/gpu_batch_policy_abi_core_check.py:256-264 | a refused result is cleared up to the least of its physical size, its declared size and 72 |
| AbiTheorems.InsideNeverFaults | audit/gpu_batch_policy_abi_core_check.py:240-314 | a call whose ranges lie in the arena never leaves it |
| AbiTheorems.SuccessDecodes | audit/gpu_batch_policy_abi_core_check.py:222-237 | the twelve result fields of a success, decoded from its 72 bytes |
| AbiTheorems.LittleEndian | audit/gpu_batch_policy_abi_core_check.py:202-207 | words are read with the lowest byte first, double words with the low word first |
| AbiQuery.BuildSuccessImage | audit/gpu_batch_policy_abi_core_check.py:222-237 | the fields packed in place give the image laid end to end |
| AbiQuery.ByteArray.Clear | audit/gpu_batch_policy_abi_core_check.py:262-264 | clearing byte by byte zeroes exactly the range, or stops at the end of the arena |
| AbiQuery.Simulate | audit/gpu_batch_policy_abi_core_check.py:240-314 | the in-place simulation, with each deliberate defect, equals the query function |
| AbiTheorems.FieldsExactly | audit/gpu_batch_policy_abi_core_check.py:293-310 | the field checks pass exactly for reserved 0, an operation 1 to 3, a mask below 32, and non-zero counts whose product fits 64 bits |
| AbiRepeat.TouchesOnlyResult | audit/gpu_batch_policy_abi_contract.h:220-229 | only the first min(P, D, 72) result bytes may change; when the arena grows and by how much |
| AbiCompare.ArenaGrows | audit/gpu_batch_policy_abi_core_check.py:312-314 | a concrete call that succeeds with 8 of its 72 result bytes in the arena, which then has 64 bytes more |
| AbiRepeat.RequestUntouched | audit/gpu_batch_policy_abi_contract.h:220-229 | no call changes a byte of a non-null request range |
| AbiRepeat.ClearedSizeIsZero | audit/gpu_batch_policy_abi_core_check.py:257-273 | every clearing leaves the declared size zero, also sizes 1 to 3 |
| AbiRepeat.SecondCall | audit/gpu_batch_policy_abi_core_check.py:240-314 | a second call leaves the arena alone; statuses are final except that a rejected request becomes a rejected result |
| AbiRepeat.ResultFirst | audit/gpu_batch_policy_abi_core_check.py:254-274 | a bad result decides status and result bytes whatever the request is |
| AbiCompare.OmitWrapShows | audit/gpu_batch_policy_abi_core_check.py:248-250 | omitting the wrap check shows exactly when a range wraps |
| AbiCompare.IgnoreMaskShows | audit/gpu_batch_policy_abi_core_check.py:312-314 | ignoring the mask shows exactly on a success whose mask excludes the CPU |
| AbiCompare.OffByOneShows | audit/gpu_batch_policy_abi_core_check.py:257-274 | clearing one byte more shows exactly on a rejected result followed by a non-zero byte or the end |
| AbiCompare.PositionIndependent | audit/gpu_batch_policy_abi_core_check.py:240-314 | the outcome does not depend on where the arena lies |
| AbiCompare.DiffAgainstReference | audit/gpu_batch_policy_abi_core_check.py:545-556 | the list names, in order and once each, exactly the cases on which a consumer differs from the model, with both statuses |
| AbiCompare.AgreesExactly | audit/gpu_batch_policy_abi_core_check.py:549-553 | when a report agrees with the model: same status number and same arena, at the addresses it reports |
| AbiCompare.StatusNumbers | audit/gpu_batch_policy_abi_core_check.py:185-186 | the statuses are numbered 0 to 6 |
| AbiCompare.LastReportCounts | audit/gpu_batch_policy_abi_core_check.py:546-546 | of several reports of one case the last one counts |
| AbiCompare.CrossConsumerExactly | audit/gpu_batch_policy_abi_core_check.py:559-562 | the list names, in order and once each, exactly the cases whose two reports differ in status or arena; it is empty exactly if none do |
| AbiCompare.NoDivergenceTransfers | audit/gpu_batch_policy_abi_core_check.py:545-562 | two consumers that never differ from the model never differ from each other |
| ArchiveFormat.WalkMembers | audit/gpu_batch_policy_abi_artifact_matrix.py:755-774 | the header loop terminates and gives the walk, or the first bad header |
| ArchiveFormat.FindLongNames | audit/gpu_batch_policy_abi_artifact_matrix.py:776-780 | the contents of the first extended-name table |
| ArchiveFormat.ResolveMembers | audit/gpu_batch_policy_abi_artifact_matrix.py:782-798 | every member resolved, or the first failure |
| ArchiveFormat.ParseArchive | audit/gpu_batch_policy_abi_artifact_matrix.py:743-798 | the three loops together are the parse function |
| ArchiveFormat.CutBlocks | audit/gpu_batch_policy_abi_artifact_matrix.py:801-823 | the second loop gives the blocks |
| ArchiveWalkers.WalkersAgree | audit/gpu_batch_policy_abi_artifact_matrix.py:743-823 | both walkers find the same members; where each content starts; all but fewer than 60 bytes are in the blocks |
| ArchiveWalkers.WalkJoined | audit/gpu_batch_policy_abi_artifact_matrix.py:755-774 | joined whole blocks are walked back to their headers |
| ArchiveWalkers.ContentsJoined | audit/gpu_batch_policy_abi_artifact_matrix.py:755-774 | each member's offset points at its block's content |
| ArchiveWalkers.ParseJoined | audit/gpu_batch_policy_abi_artifact_matrix.py:743-798 | an archive of whole blocks resolves its names against the tables' common content |
| ArchiveWalkers.AnyChoiceParses | audit/gpu_batch_policy_abi_artifact_matrix.py:801-810 | any choice of blocks in any order parses exactly if it keeps the table or needs none, and keeps every name, header field and content |
| ArchiveRoundTrip.NumberOfDec | audit/gpu_batch_policy_abi_artifact_matrix.py:765-765 | a decimal size or offset reads back |
| ArchiveRoundTrip.HeaderReads | audit/gpu_batch_policy_abi_artifact_matrix.py:756-765 | a padded 60-byte header reads back field by field |
| ArchiveRoundTrip.LongNameReads | audit/gpu_batch_policy_abi_artifact_matrix.py:787-791 | a long name is found at its offset in the table |
| ArchiveRoundTrip.NameReads | audit/gpu_batch_policy_abi_artifact_matrix.py:782-793 | every written name, short or long, resolves to itself, and only index members are marked so |
| ArchiveRoundTrip.RoundTrip | audit/gpu_batch_policy_abi_artifact_matrix.py:743-798 | parsing a written archive gives back exactly the names, metadata, sizes and contents, in order |
| ArchiveRoundTrip.TableIsNeeded | audit/gpu_batch_policy_abi_artifact_matrix.py:801-810 | a concrete archive whose blocks no longer parse without the table |
| ArchiveContract.IndexNamesAreReserved | audit/gpu_batch_policy_abi_artifact_matrix.py:782-793 | a member resolves to an index name only if its raw name is one |
| ArchiveContract.AcceptedBlocks | audit/gpu_batch_policy_abi_artifact_matrix.py:834-876 | an accepted archive is index, table and object, the first two whole |
| ArchiveContract.AcceptedExactly | audit/gpu_batch_policy_abi_artifact_matrix.py:834-876 | of all archives that can be written, the contract accepts exactly index, table and the named object without stamps and with the expected modes and size |
| ArchiveContract.TermsExactly | audit/gpu_batch_policy_abi_artifact_matrix.py:852-866 | for parts written in the right order each term holds exactly if its own part has no stamp and the mode 0, 0 or blank, or 644, and the identity term exactly if the size fits |
| ArchiveContract.OrderExactly | audit/gpu_batch_policy_abi_artifact_matrix.py:847-850 | for parts written in any number and order: when the count, the order and the identity term hold |
| ArchiveContract.DroppingIndexIsCaught | audit/gpu_batch_policy_abi_artifact_matrix.py:1379-1384 | no accepted archive stays accepted without its index |
| ArchiveContract.ReorderingIsCaught | audit/gpu_batch_policy_abi_artifact_matrix.py:1386-1393 | nor with the object sorted first |
| ArchiveContract.BuildAlteredMode | audit/gpu_batch_policy_abi_artifact_matrix.py:1399-1410 | the header edit changes the mode field alone, and gives up on an unexpected one |
| ArchiveContract.ChangedModeIsCaught | audit/gpu_batch_policy_abi_artifact_matrix.py:1395-1413 | nor with mode 755; and exactly when that mutant can be built |
| ArchiveMutants.MissingIndexTerm | audit/gpu_batch_policy_abi_artifact_matrix.py:1379-1384 | without the index the archive parses to table and object, and the count term fails |
| ArchiveMutants.ReorderedTerm | audit/gpu_batch_policy_abi_artifact_matrix.py:1386-1393 | with a whole object in front it parses to object, index and table, the count term holds and the order term fails |
| ArchiveMutants.ChangedModeTerms | audit/gpu_batch_policy_abi_artifact_matrix.py:1395-1413 | with mode 755 every term holds but the one of the object's metadata |
| ArchiveMutants.UnreadableArchives | audit/gpu_batch_policy_abi_artifact_matrix.py:750-757 | a wrong terminator behind any whole blocks, or a wrong magic, makes the archive unreadable |
| CtNamespace.StripComments | audit/audit_ct_namespace.cpp:101-121 | the index loops terminate on every text and give the stripped text |
| CtNamespace.StripKeepsCode | audit/audit_ct_namespace.cpp:101-121 | a text that reads as code and comments is stripped to exactly its code |
| CtNamespace.StripExactly | audit/audit_ct_namespace.cpp:101-121 | every text reads so, and however it reads the result is its code |
| CtNamespace.StripIsBare | audit/audit_ct_namespace.cpp:101-121 | no comment opener survives |
| CtNamespace.StripTwice | audit/audit_ct_namespace.cpp:101-121 | stripping is the identity exactly on texts without an opener, and idempotent |
| CtNamespace.StripOnlyDrops | audit/audit_ct_namespace.cpp:101-121 | the result is a subsequence of the text |
| CtNamespace.CountOccurrences | audit/audit_ct_namespace.cpp:85-94 | the loop counts the greedily picked occurrences |
| CtNamespace.GreedyStaysAhead | audit/audit_ct_namespace.cpp:85-94 | from every position no disjoint occurrences are more than the picked ones |
| CtNamespace.GreedyIsOptimal | audit/audit_ct_namespace.cpp:85-98 | the count is the largest number of disjoint occurrences, zero exactly if the needle does not occur |
| CtNamespace.CountingEnds | audit/audit_ct_namespace.cpp:85-94 | the counting loop ends exactly for a non-empty needle; for the empty one it never moves |
| CtNamespace.Counters.Check | audit/audit_check.hpp:70-81 | a check counts as one pass or one failure |
| CtNamespace.Counters.RunFileAudit | audit/audit_ct_namespace.cpp:189-240 | the returned failures, the global counters and the check number move together |
| CtNamespace.FailuresExactly | audit/audit_ct_namespace.cpp:189-240 | the number of failures: one for a missing file, else the required patterns missing and the prohibited ones present, each counted once |
| CtNamespace.AuditReadsCodeOnly | audit/audit_ct_namespace.cpp:214-239 | comments never change a verdict: a file passes exactly if its code has every required and no prohibited pattern |
| CtNamespace.UnreadableFiles | audit/audit_ct_namespace.cpp:64-82 | what passes for a missing, empty or huge file |
| Analyzer.LessThanFails | ci/artifact_analyzer.py:235-236 | comparing two keys raises exactly between a missing and a present section of one check |
| Analyzer.Insert | ci/artifact_analyzer.py:235-236 | inserting by comparisons succeeds exactly if the key can be compared with all keys of the list, and keeps it ascending |
| Analyzer.SortKeys | ci/artifact_analyzer.py:235-236 | sorting by comparisons, in whatever order the keys come, raises exactly if some two cannot be compared, and else gives the one ascending list |
| Analyzer.NeighboursClash | ci/artifact_analyzer.py:235-236 | in every arrangement by check id of keys that cannot all be compared, two neighbours raise |
| Analyzer.MixedSectionsFail | ci/artifact_analyzer.py:224-236 | one flat and one sectioned event of a check make two reports incomparable that each can be sorted |
| Analyzer.Sorted | ci/artifact_analyzer.py:235-236 | the keys once each, in ascending order |
| Analyzer.AscendingIsSorted | ci/artifact_analyzer.py:235-236 | ordering a set of keys has one result |
| Analyzer.LastEventCounts | ci/artifact_analyzer.py:226-227 | of several events with one key the last one counts |
| Analyzer.RegressionDiff | ci/artifact_analyzer.py:224-285 | the four lists are the sorted regression, fix, new and removed keys with their severities and titles; or the error of the sort |
| Analyzer.DiffConserves | ci/artifact_analyzer.py:224-285 | keys and blocking keys are conserved |
| Analyzer.DiffSwaps | ci/artifact_analyzer.py:224-285 | swapping the reports swaps regressions with fixes and new with removed |
| Analyzer.LastReportCounts | ci/artifact_analyzer.py:294-301 | of several reports of one platform the last one counts |
| Analyzer.DetectDivergence | ci/artifact_analyzer.py:292-334 | lists exactly the keys on which two platforms disagree, in order, with all platforms' classes |
| Analyzer.DiffWithinDivergence | ci/artifact_analyzer.py:224-334 | a key is a regression or a fix exactly if it diverges with one blocking class |
| Analyzer.NoDivergenceMeansAgreement | ci/artifact_analyzer.py:313-328 | nothing diverges exactly if all platforms agree, and then no two have regressions or fixes |
| AnalyzerLists.LessExactly | ci/artifact_analyzer.py:235-235 | strings are ordered by their first difference, a prefix coming first |
| AnalyzerLists.KeyLessExactly | ci/artifact_analyzer.py:235-235 | keys are ordered by check id, and within a check by section |
| AnalyzerLists.DiffAscends | ci/artifact_analyzer.py:235-285 | all four lists ascend in that order |
| AnalyzerLists.DiffExactly | ci/artifact_analyzer.py:236-277 | which entries stand in each of the four lists, with the texts they carry |
| AnalyzerLists.NewFindingsInOrder | ci/artifact_analyzer.py:235-270 | two new findings "a" and "b" come out in this order, whichever was reported first |
| AnalyzerLists.DivergencesExactly | ci/artifact_analyzer.py:313-328 | which divergences are listed, with the classes they carry, and that they ascend |
| AnalyzerLists.PlatformsByFirstReport | ci/artifact_analyzer.py:303-303 | platforms are listed by their first reports |

## Left out

- The environment never writes into a file a publisher created and never gives an inode number out a second time; everything else it may do.
- The ancestry check before the walk may give any answer at any time; the walk itself is modelled entry by entry.
- System calls are atomic and a link from a descriptor is one step; modes, `/proc` paths and close errors are not modelled. A reply that a call cannot get is treated as an unrelated error.
- `PublishProgram` is sequential and takes its replies from a list; the interleaving is in `Publish`, and `PublishProgram.RunFollows` connects the two.
- TaskRoot.ReadTaskRoot: only the reads and their verdicts; parsing, receipts, the retained epoch and the READY text are left out.
- SHA-256, base64, UTF-8, JSON decoding, times, media types and the hint-drift report are functions given to the snapshot check. JSON numbers are exact; NaN is not modelled.
- Regular expressions are not modelled; the `Link` pattern is parsed by hand in its coded shape.
- AbiCompare.NoDivergenceTransfers: for 64-bit pointers, as the cases are built; `AbiQuery` itself takes any width.
- The 611-case matrix, consumers, compilers and their mutants, sealed files and reports.
- `ar` size fields that Python's `int` accepts beyond plain digits (signs, underscores) are rejected here; negative sizes are not modelled.
- Names stay bytes; their final decoding replaces invalid bytes, which cannot produce an index name.
- ELF decoding, the NEEDED check and the two-run gate, which are fixed-offset reads and one-branch verdicts.
- `strip_comments` ignores string literals by design; nothing is claimed about C++ lexing.
- CtNamespace.Counters.RunFileAudit: messages are left out, as is a short read, which the source treats like an empty file.
- `sorted` is modelled as an insertion sort; the order in which Python's own sort compares is not modelled.
- `normalize_event`, report schemas, the database, flakes, SARIF and Markdown; events are given normalized.
- Curve, field and signature arithmetic: their implementation is not part of this model.
