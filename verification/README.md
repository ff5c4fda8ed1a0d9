# A model of a signed package repository that must never go backwards

The repository publishes Debian kernel packages from an unattended pipeline. Its correctness rests on
a few deterministic cores, and this project models and proves them:

* **Version order** (`Text`, `VersionOrder`, `DebianVersions`, `Naming`, `NamingOrder`). The two-index comparison loop
  of section 5.6.12 of the Debian Policy Manual equals lexicographic comparison of a zero-padded
  integer key, so it is a total order; equal versions are exactly those with one normal form, so
  hashing agrees with equality; and it is decided, for any two Debian versions, whether their derived
  package versions order like the pairs of Debian version and downstream revision.
* **Users of the order** (`SourceProfiles`, `Retention`). At most one source profile covers a version.
  Retention under a byte budget is optimal, never splits a patch release, and keeps the newest.
* **Patch placement** (`SourcePatch`, `PatchText`, `PatchOutcome`). The splicing loop with its moving
  cursor performs one simultaneous edit of the original; reversal undoes it; the classification of a
  patch and of its reversal mirror each other; nothing is written unless everything was placed.
* **The store** (`Keys`, `Store`, `RemoteStore`). Conditional puts with an etag that is never used
  twice (sections 13.1.1 and 13.1.2 of RFC 9110), and a remote side that may lose a response.
* **Publication** (`PublicationPlanning`, `Publication`, `PublicationRuns`). Planning, the twelve-phase
  commit, and every run of it: crashes after any single write with the same or a recaptured plan,
  other clients on other keys, several publishers racing for the pointer.
* **The lease** (`Lease`, `LeaseRuns`). The manager's methods, and any number of clients interleaved at
  single store requests, with lost responses and clocks cut to whole seconds.
* **Generations** (`Collector`, `Retirement`, `Generations`, `GenerationSteps`, `LeasedGenerations`,
  `Lifecycle`). Tombstones, bounded deletion plans, a collector suspended for any time after its last
  check, the store operations behind the events, what the two reads of a publisher need and how the
  lease provides it, and the decisions that drive generations.
* **Composition** (`StorageBudget`, `SitePublication`, `StoragePublish`). Exact accounting of the whole
  namespace, ordered publication of the site prefix, and one publication run from lease to release.

Objects that the program updates in place are classes (`ConditionalObjectStore`, `S3ObjectStore`,
`PublicationExecutor`, `LeaseManager`, `SourceTree`). Their methods are specified by functions on the
value of the store, and the lemmas about whole runs are about those functions. Automatic induction is
switched off everywhere: each inductive proof makes its own recursive calls.

Digests are represented by the bytes they identify, the canonical document of a lease record by the
record, and a raised exception by an `Err` result. Timestamps are integers.

Four results are corrections of what one might expect, and are stated as such.

The comment in `dkc/naming.py` says that derived versions of successive Debian revisions order
correctly. `NamingOrder.PairOrderIsKeptIff` says exactly when: strip from two fragments the characters
and numbers they share; the order of all derived versions is kept unless only one of them is exhausted,
and then exactly if the remainder of the other sorts below the end of the string or, carrying its own
suffix, above every suffix. Revisions that end in a digit and use, besides digits, only `.` and `~` are
always safe. A stable security update, 7.1-1+deb13u1 over 7.1-1, is not, and an unattended run then
publishes a package version that goes back (`Lifecycle.SecurityUpdateGoesBack`).

A publisher reads the state pointer twice, to verify and to capture its etag. A commit of somebody else
between the two reads loses objects for good (`Generations.LateCaptureLosesObjects`); it is excluded by
the lease for publishers that pass their first window check with the handle they verified under and
commit inside a checked window (`LeasedGenerations.LeasedCommitsAreTimely`).

Timely commits alone do not keep what tombstones say. A publisher that stalls before an upload can later
create its own object under a key that was retired and deleted meanwhile, and no collection can be planned
any more (`Generations.StalledUploadSpoilsTombstone`); tombstones hold exactly while nobody does
(`Generations.TombstonesAlwaysHoldIff`), and under the lease nobody can, since uploads too fall inside
checked windows (`LeasedGenerations.LeasedTombstonesHold`).

The plan's constructor does not exclude two mutable roles for one key
(`Publication.AcceptedNeedNotSeparate`); planning does (`PublicationPlanning.PlanRepository`), and
execution requires it.

## Model

| member | source | states |
|---|---|---|
| VersionOrder.ComparePaddedMeaning | dkc/debver.py:34-77 | the order of two keys is the sign at the first position where the zero-padded keys differ, and zero exactly when none does |
| VersionOrder.CompareFragment | dkc/debver.py:49-77 | the nested loop terminates and returns the padded comparison of the two keys, which alternate run weights, 0 and a number |
| VersionOrder.FragmentTransitive | dkc/debver.py:49-77 | fragment order is transitive, strictly so if one step is strict |
| VersionOrder.NormalizedFragment | dkc/debver.py:80-103 | the tokenizing loop returns the normal form of the fragment |
| VersionOrder.EqualIffSameNormalForm | dkc/debver.py:49-103 | two fragments compare equal if and only if their normal forms are equal |
| DebianVersions.ParsesIffSpelled | dkc/debver.py:117-147 | a text parses into an epoch, upstream version and revision if and only if it spells them: an optional number and colon, an upstream version that starts with a digit, and a revision behind the last hyphen, over their alphabets, with a colon upstream only behind a positive epoch |
| DebianVersions.ParsedSpelling | dkc/debver.py:117-147 | every parsed version is well formed and spells out as epoch, upstream version and revision again |
| DebianVersions.ParseAppended | dkc/debver.py:117-147 | appending a suffix of revision characters to a parsed version extends its last component and nothing else |
| DebianVersions.CompareVersions | dkc/debver.py:195-205 | the comparison that runs the loops equals the order by epoch, upstream version and revision |
| DebianVersions.CompareReflexive | dkc/debver.py:195-205 | a version compares equal to itself |
| DebianVersions.CompareAntisymmetric | dkc/debver.py:195-205 | exchanging the operands negates the result, so any two versions are ordered |
| DebianVersions.CompareTransitive | dkc/debver.py:195-205 | the order is transitive on all versions, strictly so if one step is strict |
| DebianVersions.Hash | dkc/debver.py:182-192 | the hash key is the epoch with the normal forms of both components |
| DebianVersions.EqualIffSameHashKey | dkc/debver.py:177-192 | versions are equal if and only if they have one hash key |
| DebianVersions.SeriesIffSpelled | dkc/debver.py:157-167 | the series of an upstream version is (x, y) if and only if it spells the number x, followed by a dot and the number y, or by anything else and y is 0 |
| DebianVersions.DottedSeries | dkc/debver.py:157-167 | X.Y in decimal numerals, whatever follows, spells X and Y |
| DebianVersions.UndottedSeries | dkc/debver.py:157-167 | X without a dot and a digit behind it spells X and 0 |
| Naming.PackageVersionAboveSource | dkc/naming.py:84-97 | the derived version is the Debian version with the suffix and the revision appended, always parses and is strictly above the Debian version it derives from |
| Naming.PackageVersionOrdersRevisions | dkc/naming.py:84-97 | for one Debian version derived versions order exactly as the downstream revisions |
| Naming.PackageVersionOrdersPairs | dkc/naming.py:84-97 | with orderly revisions derived versions order exactly as the pairs of Debian version and downstream revision |
| NamingOrder.IsKeptIff | dkc/naming.py:84-97 | for two fragments that both carry the suffix the order is kept for all positive revisions if and only if neither ends where the other goes on, or what goes on is safe |
| NamingOrder.SafeTailByFirst | dkc/naming.py:84-97 | what goes on is safe with `~`, `.`, `-` or `:`, never with a letter, with a number only if it is zero and something below the end follows, and with `+` only if it lies above the suffix |
| NamingOrder.PairOrderIsKeptIff | dkc/naming.py:84-97 | for any two parsed versions, native or not, derivation orders like the pairs of version and downstream revision if and only if they are safe |
| NamingOrder.OrderlyAlphabetIsExact | dkc/naming.py:84-97 | versions whose revisions end in a digit over an alphabet all keep their order if and only if the alphabet adds at most `.` and `~` to the digits |
| NamingOrder.LetterOrPlusReverses | dkc/naming.py:84-97 | for each letter and `+` a parsed version lies above `1-1` and everything derived from it below everything derived from `1-1` |
| NamingOrder.SecurityUpdateReverses | dkc/naming.py:84-97 | what is derived from 7.1-1+deb13u1 lies below what is derived from 7.1-1 |
| NamingOrder.NativeLandsAbove | dkc/naming.py:84-97 | a native version whose upstream version is not below derives above every version with a revision |
| SourceProfiles.CheckProfile | dkc/sourceprofile.py:476-486 | a profile loads exactly if its range is not empty and covers its reviewed version |
| SourceProfiles.RangesAreHalfOpen | dkc/sourceprofile.py:229-239 | a profile covers its own lower bound and not its upper one |
| SourceProfiles.RangesHaveNoGaps | dkc/sourceprofile.py:229-239 | whatever lies between two covered versions of the series is covered |
| SourceProfiles.GroupBySeries | dkc/sourceprofile.py:536-538 | grouping keeps the members of each series in order and loses none |
| SourceProfiles.CheckNeighbours | dkc/sourceprofile.py:545-555 | the scan accepts exactly the member lists whose neighbours are all apart |
| SourceProfiles.LoadProfiles | dkc/sourceprofile.py:517-556 | a registry loads exactly if it is not empty, every profile loads and every sorted series has its neighbours apart |
| SourceProfiles.AtMostOneProfile | dkc/sourceprofile.py:536-556 | in an accepted registry no version is covered by two profiles, adjacent or not |
| SourceProfiles.LaterProfileTakesOver | dkc/sourceprofile.py:536-573 | where two profiles of an accepted registry meet, that version belongs to the later one and to no other |
| SourceProfiles.SeparatedRangesAccepted | dkc/sourceprofile.py:536-556 | profiles whose ranges are pairwise apart are always accepted, unless a bound is some `0~` version, so the check rejects no good registry |
| SourceProfiles.SelectProfile | dkc/sourceprofile.py:558-573 | selection returns the one covering profile or reports that none covers; the branch for several is never taken |
| Retention.SelectRetained | dkc/retention.py:78-164 | the grouping, sorting and popping loops compute the retention function, list the retained releases newest first, and never reach their assertion |
| Retention.ReleasesFollowVersions | dkc/retention.py:43-45 | two objects are of one release exactly if epoch and upstream version are the same, and releases order by epoch and upstream version |
| Retention.OneIsProtected | dkc/retention.py:127-130 | of every series that is left exactly one release is protected, and no other of the series is newer |
| Retention.RetainedSeriesAreNewest | dkc/retention.py:112-115 | the retained series are the newest ones present, in descending order, and all of them if there are few enough |
| Retention.RetentionIsOptimal | dkc/retention.py:112-164 | what is dropped is the shortest oldest-first prefix of unprotected releases that meets the budget; everything else of the newest series stays, and the bytes are accounted exactly |
| Retention.ReleasesStayWhole | dkc/retention.py:112-164 | objects of one patch release are kept or dropped together |
| Retention.FailsIffProtectedExceed | dkc/retention.py:137-153 | selection fails if and only if the fixed bytes and the protected releases alone exceed the limit |
| Retention.MonotoneInBudget | dkc/retention.py:112-164 | a larger limit never fails where a smaller one did not, and keeps a superset |
| Retention.SeriesOrderAgrees | dkc/debver.py:158-167 | for dotted-decimal upstream versions the order of series agrees with the version order |
| Retention.NewestOfSeries | dkc/retention.py:112-164 | every retained series keeps a release that is not older than any of its objects |
| Retention.NewestReleaseIsKept | dkc/retention.py:112-164 | with dotted-decimal upstream versions of one epoch the newest release is always kept |
| Retention.NewestOfSpelledSeries | dkc/retention.py:112-164 | an object stays only if the X.Y that its upstream version spells is retained, and then a release that spells the same X.Y and is not older stays |
| Retention.RetainedSeriesAreSpelled | dkc/retention.py:112-115 | the retained series are exactly the greatest of all X.Y that the pool spells |
| SourcePatch.ReversalIsInvolution | dkc/sourcepatch.py:54-79 | reversing twice gives the hunk back; reversal swaps old and new text and keeps both context widths |
| SourcePatch.HunkParts | dkc/sourcepatch.py:213-217 | old and new text are the same context around the removed and the inserted core |
| SourcePatch.Find | dkc/sourcepatch.py:195-203 | the search returns exactly the positions of the needle from a start on, ascending |
| SourcePatch.PlaceBehind | dkc/sourcepatch.py:213-237 | placing from the cursor depends only on the text behind the cursor |
| SourcePatch.PlaceSound | dkc/sourcepatch.py:213-237 | a placed hunk stands on its removed core beside at least one complete side of context, and an exact one on its only complete match |
| SourcePatch.PlacementIsDecided | dkc/sourcepatch.py:213-237 | exact placement, placement with moved context and absence happen exactly for one complete match, one anchored position without a match, and neither |
| SourcePatch.ApplyFile | dkc/sourcepatch.py:240-251 | the in-place splicing loop with its cursor equals placing each hunk in the rest of the file |
| SourcePatch.PlacementIsSimultaneousEdit | dkc/sourcepatch.py:240-251 | a success replaces ordered disjoint ranges of the original, each one hunk's removed core, and changes nothing else; no hunk matches inserted text |
| SourcePatch.RoundTrip | dkc/sourcepatch.py:76-87 | if all hunks apply exactly with clear trailing contexts and the reversal applies exactly, the reversal restores the original |
| PatchText.HeaderAnnounces | dkc/sourcepatch.py:90-132 | a header announces its counts, 1 for each that is not written, whatever else stands on the line |
| PatchText.ParseHunk | dkc/sourcepatch.py:127-153 | behind a header exactly the announced, complete, changing hunks are accepted, each in one way; a backslash and unchanged text are reported as such |
| PatchText.RenderedSpells | dkc/sourcepatch.py:134-145 | a rendered hunk inside any text is read as that hunk |
| PatchText.SpellingIsRendering | dkc/sourcepatch.py:137-145 | what is read is the rendering, up to the missing space of blank context |
| PatchOutcome.ReversedPatchTwice | dkc/sourcepatch.py:82-87 | reversing a whole patch twice gives it back |
| PatchOutcome.TryPatch | dkc/sourcepatch.py:261-270 | an attempt places every file or reports the first that fails, and is exact only if every file is |
| PatchOutcome.SourceTree.WriteFiles | dkc/sourcepatch.py:292-293 | files are written one after the other; a crash leaves some of them written, the others untouched, and at most one with other text |
| PatchOutcome.SourceTree.ApplyPatch | dkc/sourcepatch.py:282-306 | the outcome is the classification of both attempts; failures and already-present outcomes change no file, the others exactly the patched files, or after a crash some of them and at most one torn file |
| PatchOutcome.OutcomeNamesEdits | dkc/sourcepatch.py:282-297 | a written patch replaces ordered ranges, each one hunk's core; it applied as it is exactly if every hunk's complete old text stood once behind the previous edit, and with moved context exactly if some did not |
| PatchOutcome.OutcomesAreSymmetric | dkc/sourcepatch.py:282-306 | the reversed patch is already present exactly when the patch is applied, and the other way round; errors match too |
| PatchOutcome.UndoRestoresTree | dkc/sourcepatch.py:76-87 | applying a patch and then its reversal, both exactly, restores every file of the tree |
| Store.ConditionalObjectStore.Get | tests/fake_storage.py:48-51 | returns what the store holds |
| Store.ConditionalObjectStore.Put | tests/fake_storage.py:57-83 | the whole new state: the object under the next etag, or nothing changed |
| Store.ConditionalObjectStore.CreateImmutable | tests/fake_storage.py:85-94 | carries out a creation and keeps etags unique |
| Store.ConditionalObjectStore.Delete | tests/fake_storage.py:96-99 | removes one key and leaves the revision counter alone |
| Store.ConditionalObjectStore.ListKeys | tests/fake_storage.py:101-103 | the keys with a prefix, each once, ascending |
| Keys.BeforeMeans | tests/fake_storage.py:101-103 | keys ascend by the character at which they first differ, a proper beginning first |
| Store.EtagsAreNeverReused | tests/fake_storage.py:69-83 | over any steps of any clients an old etag seen again means the same object, never rewritten |
| RemoteStore.S3ObjectStore.Put | dkc/remote_store.py:62-96 | an answered put tells the truth, a failed precondition is never turned into success, and an ambiguous failure, a lost response without status included, is success exactly if the intended object is there; no other status ever is |
| RemoteStore.S3ObjectStore.CreateImmutable | dkc/remote_store.py:98-107 | creation succeeds exactly if, after whatever others did meanwhile, the intended object is there and the failure, if any, was ambiguous |
| RemoteStore.S3ObjectStore.Delete | dkc/remote_store.py:109-118 | a reported success left no object behind; only a lost response and server failures are looked into |
| RemoteStore.ReconciliationIsExact | dkc/remote_store.py:80-96 | unless others touched the key, re-reading tells whether the lost request took effect or the object was there before |
| Publication.AcceptedMeans | dkc/publication.py:37-49 | the constructor accepts exactly plans with one precondition per mutable key, no immutable key among them, and an immutable transaction record |
| Publication.AcceptedNeedNotSeparate | dkc/publication.py:37-49 | an accepted plan may still give one mutable key two roles |
| Publication.PublicationExecutor.Perform | dkc/publication.py:98-112 | one write or verification has exactly the effect and error of its step |
| Publication.PublicationExecutor.Execute | dkc/publication.py:114-206 | the phases up to an injected failure run their operations in order and stop at the first error |
| Publication.ProgramOrder | dkc/publication.py:140-206 | the transaction record comes before anything, immutable objects before mutable ones, everything InRelease names before it, the conveniences, signatures first, and the pointer only after all that was read back, and the pointer after every other key; only written objects are verified, and every key is handled |
| Publication.PointerIsReadBack | dkc/publication.py:187-206 | the pointer is followed by nothing but reading back every mutable key, itself included |
| PublicationRuns.PerformKeepsInv | dkc/publication.py:98-206 | in a recoverable store no step fails, and the store stays recoverable |
| PublicationRuns.EventKeepsInv | dkc/publication.py:98-206 | so do crashes, recaptured plans and writes of others to other keys |
| PublicationRuns.CrashRecovery | dkc/publication.py:98-206 | after any such events the rest of the attempt ends without error, the plan's keys hold its objects, and every other key is as if nothing had been published; an undisturbed run leaves the same |
| PublicationRuns.RunSucceedsIffRecoverable | dkc/publication.py:98-206 | a run succeeds if and only if immutable keys are absent or equal and mutable keys are done or match their precondition |
| PublicationRuns.StepKeepsVisibility | dkc/publication.py:140-206 | no step shows InRelease before its objects or the pointer before everything, even if later steps fail |
| PublicationRuns.VisibilityInEveryRun | dkc/publication.py:140-206 | both visibility facts hold after every event of every run |
| PublicationRuns.PublishersPutPointers | dkc/publication.py:98-107 | whatever a publisher does to the pointer is a put under its captured precondition |
| PublicationRuns.OnePointerIsCommitted | dkc/publication.py:98-107 | any number of publishers planned on one state etag commit at most one pointer, whatever their interleaving |
| PublicationPlanning.KeysByRole | dkc/publication_plan.py:38-76 | the six objects every repository needs, where immutable objects may lie, and how a transaction record is named |
| PublicationPlanning.Collect | dkc/publication_plan.py:30-36 | the inventory is accepted exactly if no object is too large or repeated |
| PublicationPlanning.Split | dkc/publication_plan.py:57-68 | immutable and mutable parts are exactly the remaining objects by their caching |
| PublicationPlanning.Capture | dkc/publication_plan.py:84-86 | every mutable key gets the etag it has, or none |
| PublicationPlanning.PlanRepository | dkc/publication_plan.py:22-94 | a plan results exactly for complete, signed, well-placed inventories; its roles are disjoint and its preconditions current |
| PublicationPlanning.PlanWritesInventory | dkc/publication_plan.py:57-94 | what a plan writes is the inventory, no more and no less |
| PublicationPlanning.FreshPlanIsRecoverable | dkc/publication_plan.py:80-94 | a fresh plan can be carried out exactly if no immutable key holds other bytes |
| Publication.SeparatedMeans | dkc/publication.py:37-49 | execution requires exactly what the constructor accepts plus pairwise disjoint mutable roles |
| Lease.SuccessReplacesWhatWasRead | dkc/lease.py:181-285 | a conditional write that succeeds, whatever others did since the read, replaces exactly what was read |
| Lease.LeaseManager.Acquire | dkc/lease.py:181-219 | an absent or free lease is acquired, an unexpired own one resumed, an expired own one lost; another owner's is taken over exactly with the terminal proof and once the grace after expiry has gone by, and is busy otherwise; refusals change nothing, and a write is refused only if others acted between read and write |
| Lease.LeaseManager.AssertBatchWindow | dkc/lease.py:221-239 | passes exactly for the current etag, the recorded owner and an expiry beyond both bounds |
| Lease.LeaseManager.Renew | dkc/lease.py:241-264 | succeeds exactly for the holder of the current revision before expiry, if nobody else acts, and keeps owner and acquisition time |
| Lease.LeaseManager.Release | dkc/lease.py:266-285 | succeeds exactly for the holder of the current revision, expired or not, if nobody else acts, and leaves a free record |
| Lease.OtherObjectsFailClosed | dkc/lease.py:175-179 | an object that is not exactly a lease, by metadata, kind or timestamps, is never written over: every call reports the lease lost |
| Lease.ReleasedHandlesAreDead | dkc/lease.py:241-285 | after a release the handle can neither renew nor release, and anybody may acquire |
| Lease.RenewalOpensWindow | dkc/lease.py:221-264 | a renewal keeps owner and acquisition time, kills the old handle and opens every window shorter than the lifetime |
| LeaseRuns.InvAtStart | dkc/lease.py:181-194 | the invariant holds before the first lease |
| LeaseRuns.EventKeepsInv | dkc/lease.py:159-285 | every clock reading, read, delayed write, lost request or response, adopting re-read, stop and clock step of clients with their own limits keeps it |
| LeaseRuns.MutualExclusion | dkc/lease.py:181-285 | while the lease is held at most one client has a handle with the current etag, the recorded owner; a current handle on a free record can do nothing |
| LeaseRuns.WriteReplacesWhatWasRead | dkc/lease.py:212-219 | a successful write replaces exactly what its writer had read |
| LeaseRuns.TakeoversAreProven | dkc/lease.py:199-219 | over every run a write that replaces another owner's held lease comes from a read for an acquisition with the terminal proof, whose clock was at least the grace beyond the expiry of that very lease |
| LeaseRuns.StaleHandlesAreFenced | dkc/lease.py:221-285 | a handle whose etag is not current never again renews, releases or passes the window check |
| LeaseRuns.HolderKeepsLease | dkc/records.py:451-460 | below expiry plus grace only the holder's own release ends the holding |
| LeaseRuns.BatchWindow | dkc/lease.py:221-239 | after a passed check, its clock read at any time after the lease, nobody else holds the lease until both bounds and the grace have gone by, to the microsecond, unless the holder releases |
| Collector.ImmutableKeysAre | scripts/in-container/build-signed-repository.py:515-526 | exactly what lies in the pool or is named by its digest is immutable |
| Collector.Assemble | scripts/in-container/build-signed-repository.py:1033-1054 | refuses exactly a resurrected key; otherwise the old tombstones stay in front, and exactly the live immutable objects that are not current join them, each with key, digest and size of its artifact |
| Collector.ExtendedKeys | scripts/in-container/build-signed-repository.py:1039-1054 | old tombstones stay in front, and exactly the live immutable objects that are not current any more join them |
| Collector.ExtendedEntries | scripts/in-container/build-signed-repository.py:1039-1054 | every tombstone that joins records key, digest and size of one artifact that was live, immutable and is not current |
| Collector.OnlyImmutableKeysCount | scripts/in-container/build-signed-repository.py:1033-1054 | mutable keys added after assembly change no tombstone |
| Collector.PlanGc | dkc/gc.py:46-94 | a plan exists exactly if all remaining tombstoned objects are unchanged and fit the caps together, and is then complete; each refusal has its own cause, and a changed object is reported only if there is one |
| Collector.PlanTargetsTombstones | dkc/gc.py:63-82 | the targets are the tombstoned keys that are not live and still exist |
| Collector.ExecuteGc | dkc/gc.py:97-123 | removes a prefix of the targets, all of them on success; whatever it removed had the bytes, size and caching its tombstone records; stops only at another generation or other bytes; reports exactly what existed |
| Collector.SweptObjects | dkc/gc.py:106-123 | sweeping removes the targets and leaves every other object as it was |
| Retirement.DroppedIsTombstoned | scripts/in-container/build-signed-repository.py:923-1054 | a live immutable object of the pool joins the tombstones if and only if retention dropped it |
| Retirement.TombstonesAreDroppedReleases | scripts/in-container/build-signed-repository.py:923-1054 | hence the tombstones gain exactly the objects of series not retained and of the shortest oldest-first prefix of dropped releases |
| Generations.FollowingKeepsTrack | dkc/records.py:364-372 | the next manifest keeps all tombstones, and what was live is live or tombstoned |
| Generations.AssemblyIsValid | dkc/records.py:346-372 | assembling from a valid manifest always passes the manifest's checks |
| Generations.EventKeepsInv | scripts/in-container/storage-publish.py:187-239 | verifications, captures, uploads, commits of publishers that captured in time, armed and delayed deletions and crashes keep the invariant |
| Generations.QuietReadsAreInTime | dkc/publication_plan.py:84-86 | if nobody commits between a publisher's verifying read and its capture, it captures in time |
| Generations.GenerationsStepIffTimely | dkc/records.py:283-290 | over every run each commit steps the generation by exactly one if and only if each committing publisher captured in time |
| Generations.LateCaptureLosesObjects | dkc/publication_plan.py:84-86 | a concrete run with a commit between the two reads loses a served object: neither live nor tombstoned |
| Generations.GenerationsLoseNothing | dkc/gc.py:63-123 | over every run with timely commits tombstones only grow, every key ever live is live or tombstoned, and all live immutable objects are present |
| Generations.SuspendedCollectorIsHarmless | dkc/gc.py:106-123 | in such runs a deletion delayed for any time after its checks hits no object live in the current or a later manifest |
| Generations.FollowingHolds | scripts/in-container/build-signed-repository.py:1039-1054 | if every tombstone describes its object, so does every tombstone of the next generation |
| Generations.TombstonesAlwaysHoldIff | dkc/gc.py:63-82 | over every run with timely commits each tombstoned object that still exists is at every moment the one its tombstone describes, if and only if nobody creates another object under a tombstone |
| Generations.CurrentPublishersRespect | dkc/publication.py:98-107 | a publisher that verified the present generation, or published it, creates nothing under a tombstone |
| Generations.StalledUploadSpoilsTombstone | dkc/publication.py:98-107 | a concrete run with timely commits in which a stalled publisher creates other bytes under a retired and deleted key |
| GenerationSteps.StepSimulates | dkc/publication.py:98-206 | each operation of a publication on the store is an enabled upload or commit of the generations, or invisible to them |
| GenerationSteps.PublicationIsARun | dkc/publication.py:114-206 | any error-free beginning of a publication is a run of enabled events, timely if the capture was |
| GenerationSteps.CollectionIsARun | dkc/gc.py:97-123 | a collection behind the published pointer is a run of armed deletions |
| GenerationSteps.PublishedStoreIsComplete | dkc/publication.py:114-206 | a publisher that captured in time and finishes leaves its manifest authoritative and, in the store itself, all its live immutable objects |
| GenerationSteps.NothingChangedIffAllHold | dkc/gc.py:38-82 | what planning compares in the store is what tombstones say in the generations: no changed object is found if and only if all tombstones hold |
| GenerationSteps.CollectionNeverDiffers | dkc/gc.py:63-82 | so while tombstones hold, a publisher whose manifest follows or is the authoritative one never finds a changed object, also before its first write |
| LeasedGenerations.InvAtStart | scripts/in-container/storage-publish.py:177-191 | the joint invariant of lease, publishers and store holds before the first lease |
| LeasedGenerations.WindowIsHeld | scripts/in-container/storage-publish.py:211-217 | inside its checked window a publisher is the recorded owner of the lease |
| LeasedGenerations.WindowsAreDisjoint | scripts/in-container/storage-publish.py:211-217 | two owners are never inside their checked windows at one time |
| LeasedGenerations.EventKeepsInv | scripts/in-container/storage-publish.py:177-239 | every lease event, store event and passed check keeps the joint invariant, and every commit is timely |
| LeasedGenerations.LeasedCommitsAreTimely | scripts/in-container/storage-publish.py:177-239 | publishers that verify under a lease handle, check with the same handle and commit inside a checked window always captured in time |
| LeasedGenerations.LeasedGenerationsLoseNothing | scripts/in-container/storage-publish.py:177-239 | hence over every run under the lease nothing live is lost, tombstones are permanent, generations step by one, and suspended deletions are harmless |
| LeasedGenerations.LeasedTombstonesHold | scripts/in-container/storage-publish.py:211-239 | over every run under the lease, with uploads and commits inside checked windows, every tombstone stays true of its object |
| Lifecycle.DecisionIsTotalAndValid | dkc/lifecycle.py:33-270 | exactly the well-formed inputs give a decision, and it passes every check of the record |
| Lifecycle.VerdictFollowsOrder | dkc/lifecycle.py:111-270 | over a published state exactly what lies above the published pair is built, whatever its policy and, for a newer source, its descriptor; exactly an older source or revision, another descriptor of the same source, and another policy or LTO mode of the same pair are blocked; the rest is maintained or left alone |
| Lifecycle.ReasonNamesCause | dkc/lifecycle.py:111-270 | every reason is given exactly for its cause |
| Lifecycle.VerdictWithoutState | dkc/lifecycle.py:68-109 | an unreadable state is always blocked, an absent one built exactly if bootstrapping is allowed |
| Lifecycle.PublicationMovesForward | dkc/release_gate.py:99-154 | a matching publication steps the generation by one, never lowers the pair, raises it on a build or a policy change and keeps it on maintenance |
| Lifecycle.TrackedAtStart | dkc/lifecycle.py:81-109 | before the first decision the history is consistent with what decisions were taken on |
| Lifecycle.AdmittedOnlyOverItsState | scripts/in-container/storage-publish.py:103-141 | a publication that is admitted was decided on the very manifest it replaces, however old the decision |
| Lifecycle.RunsNeverGoBack | dkc/lifecycle.py:111-270 | over every interleaving of decisions and publications the pair never decreases, policy or LTO mode changes only with an increase, generations count publications |
| Lifecycle.BuildsRaiseThePair | dkc/lifecycle.py:142-191 | a build on a published repository raises the pair for good |
| Lifecycle.WhatLiesAboveIsPublished | dkc/lifecycle.py:142-191 | whatever lies above the published pair can be decided on and published at once: no published state blocks newer sources |
| Lifecycle.FirstPublicationIsGenerationZero | dkc/lifecycle.py:81-109 | from an empty repository only an allowed bootstrap publishes, as generation 0 |
| Lifecycle.PublishedInputsConverge | dkc/lifecycle.py:211-270 | after a publication the same inputs have nothing to do exactly while storage is within the limit and the metadata beyond the horizon |
| Lifecycle.PackageVersionsNeverGoBack | dkc/release_gate.py:121-137 | over every run between safe source versions package versions order like the pairs and never go back |
| Lifecycle.BuildsRaisePackageVersionIff | dkc/release_gate.py:121-137 | every build onto a newer source version raises the package version if and only if the two versions are safe |
| Lifecycle.SecurityUpdateGoesBack | dkc/release_gate.py:121-137 | a stable security update gives a decision and a matching publication whose package version goes back |
| StorageBudget.Load | dkc/storage_budget.py:45-54 | an inventory is read exactly if no key repeats and no size is negative |
| StorageBudget.ProjectStorage | dkc/storage_budget.py:38-65 | a projection exists exactly for well-formed, disjoint inventories, and counts the namespace after writes and deletions |
| StorageBudget.StorageIsConserved | dkc/storage_budget.py:45-65 | after a publication with crashes and its collection the namespace has the projected objects and sizes, apart from the lease |
| StorageBudget.ProjectionIsMet | dkc/storage_budget.py:45-65 | hence count and bytes agree exactly once the lease object is set aside |
| StorageBudget.SumIsBytes | dkc/storage_budget.py:45-65 | what is added up is the length of all bodies of the namespace, one behind the other |
| SitePublication.InWriteOrder | dkc/site_publication.py:133-139 | the order has every key once, no page before anything else, the home page last, and otherwise goes by name |
| SitePublication.PlanSite | dkc/site_publication.py:153-178 | the plan is the exact difference between build and prefix, refused exactly above the deletion cap |
| SitePublication.ExecuteSite | dkc/site_publication.py:181-201 | runs the writes, then the deletions, up to the first error |
| SitePublication.VerifySite | dkc/site_publication.py:204-217 | verification passes exactly if the prefix equals the build |
| SitePublication.FreshPlanPublishes | dkc/site_publication.py:153-217 | from any store a fresh plan ends without error, the prefix equals the build and nothing else changed |
| SitePublication.OrderAtEveryStep | dkc/site_publication.py:181-201 | at every step a page is written only when everything that is not a page is in place, the home page only when everything else is; deletions come last, nothing outside changed |
| SitePublication.CrashesConverge | dkc/site_publication.py:153-217 | any number of cut attempts, each planned afresh, end like one, and the deletion cap never begins to refuse |
| StoragePublish.Mutate | scripts/in-container/storage-publish.py:177-239 | succeeds if and only if the generation follows, the inventory is plannable, the tombstones are collectable within the caps, nothing is written and deleted at once, the projected size is within the limit, no immutable key holds other bytes, and any collection runs behind the publication's own pointer; every error names the first of these that fails; success leaves the intended namespace, to the object and byte as projected, and refusals before the first write change nothing |
| StoragePublish.Publish | scripts/in-container/storage-publish.py:144-256 | succeeds if and only if, besides, the lease can be acquired; then it leaves the intended namespace apart from the lease and reports its measured count and size; a lease that cannot be acquired stays as it is, otherwise it ends free, after errors too |
| StoragePublish.OnlySuccessorsFollow | scripts/in-container/storage-publish.py:103-141 | behind a publication exactly the same one goes on, or one that is numbered next and names it in pointer and manifest |
| StoragePublish.ChainsAreNumbered | scripts/in-container/storage-publish.py:103-141 | publications one behind the other start at generation 0, never go back, leave none out, and one generation is one pointer |

## Left out

- JSON, OpenPGP, TOML, HTTP, request signing, schema checks, file-system and path checks: foreign formats and calls; authenticated input is assumed, and the reading of a state pointer is a parameter of `StoragePublish.Publish`.
- Object-key syntax checks and the field syntax of records (digests, identifiers): settled by reading them.
- Characters beyond ASCII in versions, such as other decimal digits that the epoch check would admit.
- File headers and the text around hunks, and file encodings.
- StoragePublish.Publish: does not renew the lease around each write; the renewals are the writes to a foreign key in `PublicationRuns.CrashRecovery`, and the lease protocol itself is in `LeaseRuns`.
- Publication.PublicationExecutor.Execute: leaves out the lease checkpoint around each write, for the same reason; a failing checkpoint is a crash there.
- StoragePublish.Mutate: leaves out the renewals in the same way, and other writers.
- Collector.ExecuteGc: leaves out the checkpoint and other writers during one call; deletions delayed among other clients are in `Generations` and `LeasedGenerations`.
- LeasedGenerations: uploads and commits have to fall inside a checked window; that a client stops mutating when its window is over is a matter of its time limits.
- StorageBudget.StorageIsConserved: the lease object is set aside, because its record changes size while it is renewed, and the size of a lease document is not modelled.
- Retention.NewestReleaseIsKept: other upstream spellings are left out, because series are read from the first two numbers only.
- SourceProfiles.SeparatedRangesAccepted: leaves out lower bounds that are themselves some `0~` version, because the sort puts them before an absent bound.
- Lease clocks that run backwards in `LeaseRuns`; `Lease` itself admits any clock reading.
- Lifecycle.RunsNeverGoBack: admits a publication over the state its manifest names; that the pointer does not change between this check and the write is what `LeasedGenerations` and the pointer's precondition are for.
- Kernel audits, build identity, site rendering, secret handling and output redaction: outside these cores.
