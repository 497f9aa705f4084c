# Verified models of Pigeon Swarm's cryptographic protocols

This project models the protocol logic of the package and proves what it is meant to
guarantee, for every input, every run and every interleaving. `dafny verify dfyconfig.toml`
checks it.

## What is modelled

**MLS groups** (`MlsGroup*.dfy`). One device's view of a group: its state, the frontier it
bound, the commits it took in insertion order, the witnesses it waits on, the states it left
and its pending commit. `MlsGroupModel` gives each public call as a function on values; the
class `MlsGroup` updates fields in place and is proved to compute those functions. The MLS
library is a deterministic partial function from a branch and a commit to the change judged
and the branch it leads to; a branch is an epoch with its authenticator. The membership policy
is a parameter of each call, so its answers may change between calls. Proved: an invariant of
every reachable group, what stepping back keeps and drops, that taking the dropped commits
again resumes the very states left, that a group never oscillates and changes only finitely
often whatever its history, that devices converge on one chain within the retained epochs,
own commits included, exactly if none of the strongest commits was lost by its own device, and
that past those epochs they need not.

**Call media** (`CallMedia*.dfy`). Opening frames is a protocol of interleaved steps, cut at
the awaits of `open` and `addKey`; calls in flight hold the epoch object they found by
reference. The replay window is a circular array proved to refine the set of all accepted
sequences, and the opener is an object that owns one such window for each sealer. Proved over
every interleaving: nothing is delivered twice, epochs never go back, and sealers and sequences
are spent only on frames delivered.

**Private control chain** (`PrivateAuthorizationPolicy.dfy`, `PrivateControl.dfy`). A genesis
and transitions of any number, each judged by the policy before it. Hashing is an injective
function of the record hashed, signature checks and strict decoding are parameters.

**Private delivery schedules** (`PrivateDelivery*.dfy`). Generating, retiring, revoking and
looking up consecutive day windows. The class owns its private keys as arrays; a transition
copies the keys it keeps and zeroes its own.

**Proof of work** (`ProofOfWork*.dfy`). The preimages, the leading-zero test, the bounded
search and the nonces. The hash is a parameter.

**Byte codecs** (`CanonicalBase64Url.dfy`, `BinarySecretCodec.dfy`, `MlsRosterFrontier.dfy`,
`MailboxEnvelope.dfy`, `PrivateNetworkSealedEnvelope.dfy`). Strict base64url of section 5 of
RFC 4648 over a lenient decoder, length-prefixed secrets, frontier text, and padded and sealed
envelopes over a cipher whose decryption exactly inverts its encryption.

`Prelude`, `OrderedMaps`, `Sorting`, `BigEndian`, `Buffers` and `AuthenticatedCipher` hold what
several of these share.

## Where code and comments differ

- The comment on `waiting` (`src/mls/MlsGroup.ts:302-307`) says a waiting group takes no
  commit and makes none. It builds none and `applyCommit` takes none, but `confirm` still adopts
  a commit built before, and ends the wait. The model does as the code does:
  `WaitingGroupMovesOn` is such a run, and `ConfirmAdoptsOnItsBranch` says exactly when.
- The comment on `wins` (`src/mls/MlsGroup.ts:400-410`) says that the order of rivals converges on
  the same winner whatever order any number of them arrive in. Two things break that. A rival that
  comes late is not judged at all, exactly if a commit for 8 epochs later or more was taken since
  the last for its epoch (`StaleExactlyOnceOutlived`); `LateRivalDiverges` is an input on which two
  devices then stay apart. And a device loses its own commit when `confirm` is refused because a
  rival came first and the library does not process that commit; `RefusedOwnDiverges` is an input.
  Within the 8 epochs whose states are kept, devices end in one branch exactly if none of the
  strongest commits is one that its own device lost (`DevicesConverge`).
- `BinarySecretCodec.decode` takes the encoding of no parts when asked for none; `encode`
  never writes it. `NoPartsDecode` gives the one input, and `EncodesDecoded` says that there is no
  other such case.
- `MailboxEnvelope.open` takes any of the four buckets that hold the frame, not only the least
  one `seal` picks. `LargerBucketOpens` is such a body, and `SealsOpenedExactly` says exactly which
  bodies that open are ones `seal` writes.

## Model

| member | source | states |
|---|---|---|
| MlsGroupModel.SameEpochIsSameBranch | src/mls/internal/MlsGroupRules.ts:287-291 | Comparing epochs and every authenticator byte tells exactly whether two states are in one branch |
| MlsGroupInvariant.StepBackCuts | src/mls/MlsGroup.ts:507-540 | In a group that keeps the invariant no lookup of a step back can reject, and its result is the chain cut at one place with every state past it stashed |
| MlsGroupInvariant.TakeShape | src/mls/MlsGroup.ts:675-682 | Taking for the current epoch appends to the chain; taking for an earlier one and deleting the later ones cuts it there |
| MlsGroupInvariant.UncontestedChangesNothing | src/mls/MlsGroup.ts:922-939 | A record for a removed group, a future epoch, the commit already held, or an epoch whose state is gone changes nothing, and gets the answer named for that case |
| MlsGroupInvariant.ContestedShape | src/mls/MlsGroup.ts:365-398 | What becomes of any other record, told at its own place in the chain: ignored, held, taken with the rest cut off, or a removal |
| MlsGroupInvariant.ApplyKeepsInv | src/mls/MlsGroup.ts:922-941 | `applyCommit` keeps the invariant, whatever the policy answers |
| MlsGroupInvariant.ConfirmKeepsInv | src/mls/MlsGroup.ts:962-982 | `confirm` keeps the invariant, adopting or not |
| MlsGroupInvariant.BuildKeepsInv | src/mls/MlsGroup.ts:617-665 | Building a commit keeps the invariant |
| MlsGroupInvariant.RunKeepsInv | src/mls/MlsGroup.ts:90-96 | Over any run of calls: epochs of commits taken are contiguous and end below the current one, baselines are the frontiers bound before, kept states are at their epoch and a suffix of at most 8, no witness outlives the states it may need, stashed states share no epoch |
| MlsGroupInvariant.ReachableInv | src/mls/MlsGroup.ts:275-287 | Every group reached from a created, joined or restored one keeps that invariant |
| MlsGroupSafety.PlaceIsFirstDroppable | src/mls/MlsGroup.ts:508-526 | The place stepped back to is the first commit that adds leaves at or past a withheld witness with no own commit from there on |
| MlsGroupSafety.StepBackKeepsPrefix | src/mls/MlsGroup.ts:496-540 | A step back keeps the longest prefix with nothing droppable, so every own commit and all before it, and returns to the very state and frontier from before the first commit dropped |
| MlsGroupSafety.StepBackIdempotent | src/mls/MlsGroup.ts:507-540 | Stepping back twice is stepping back once, and leaves nothing droppable |
| MlsGroupSafety.LosersChangeNothing | src/mls/MlsGroup.ts:361-398 | A rejected, lost, stale, duplicate or early commit leaves the whole group as it was, witnesses included |
| MlsGroupSafety.WithheldOnlyStepsBack | src/mls/MlsGroup.ts:477-494 | A commit answered withheld leaves the group waiting, on a prefix of its chain and in no later epoch |
| MlsGroupSafety.WaitingTakesNothing | src/mls/MlsGroup.ts:582-586 | While the group waits no record raises its epoch or ends the wait, and no commit is built |
| MlsGroupSafety.TakingLeadsOn | src/mls/MlsGroup.ts:597-614 | A commit applied or replacing another leads exactly one epoch past its own, is the last of the chain, and clears the witnesses |
| MlsGroupSafety.ConfirmAdoptsOnItsBranch | src/mls/MlsGroup.ts:962-982 | A pending commit is adopted exactly on the epoch and branch it was built on; otherwise it is only dropped |
| MlsGroupSafety.BuiltIsAdoptedOnItsBranch | src/mls/MlsGroup.ts:617-665 | Whatever is taken, replaced, withheld or sent after a commit is built, confirming it adopts it exactly if the group is on the branch it was built on, and then leads to the branch built under the frontier that was the latest at building |
| MlsGroupSafety.WaitingGroupMovesOn | src/mls/MlsGroup.ts:302-312 | An input against the comment: after building, being shown a withheld commit and waiting, confirming still moves the group on and ends the wait |
| MlsGroupSafety.RemovedStays | src/mls/MlsGroup.ts:608-612 | Over any run a removed group stays removed, in its epoch, frontier and chain |
| MlsGroupRetake.RunTold | src/mls/MlsGroup.ts:598-604 | Over any run, processing the records taken again in the kept states leads where they led |
| MlsGroupRetake.ResumesTheOneLeft | src/mls/internal/MlsGroupRules.ts:298-312 | With no two stashed states in one epoch, resuming finds exactly the one of that branch, ratchets included |
| MlsGroupRetake.RetakeUndoesStepBack | src/mls/MlsGroup.ts:83-88 | After a step back, delivering the dropped commits in order again takes each and ends in the group as it was, down to ratchets, kept states and stash |
| MlsGroupRetake.ReachableRetake | src/mls/MlsGroup.ts:507-540 | So it is from every group a run of public calls reaches |
| MlsGroupRaces.BeatsTransitive | src/mls/MlsGroup.ts:411-428 | The order of rivals is transitive |
| MlsGroupRaces.BeatsTotal | src/mls/MlsGroup.ts:411-428 | Of two rivals one beats the other unless their keys, id included, are equal |
| MlsGroupRaces.BeatsAsymmetric | src/mls/MlsGroup.ts:411-428 | No two rivals beat each other |
| MlsGroupRaces.TakesExactly | src/mls/MlsGroup.ts:553-615 | A record moves a group forward exactly if its epoch is open to it, the group does not wait, and it is a commit of that epoch that withholds nothing, adds only identities admitted, is allowed from the baseline, keeps its committer's leaf and beats the commit it replaces |
| MlsGroupJudgement.AppliesExactly | src/mls/MlsGroup.ts:553-615 | A commit for the current epoch is taken exactly if no witness is withheld, nor what it binds, the roster at its frontier admits everyone it adds, it is allowed from the frontier bound and it keeps its committer's leaf; what is withheld is answered so, all else rejected |
| MlsGroupJudgement.ReplacesExactly | src/mls/MlsGroup.ts:365-428 | A rival for an earlier epoch replaces the commit held exactly if it could be taken in its place and is the stronger; if it could be but is not, it lost the race and nothing changes |
| MlsGroupJudgement.ReplacingCuts | src/mls/MlsGroup.ts:365-398 | What it leaves: the branch it leads to, its frontier, and itself as the last of the chain, from the state and frontier before the commit discarded |
| MlsGroupJudgement.WinsExactly | src/mls/MlsGroup.ts:411-428 | The stronger of two is the one the latest roster allows alone, else the one of further reach, then of higher priority, then of the lower id |
| Prelude.LessExactly | src/mls/MlsGroup.ts:427 | The lower id is decided by the first place two differ, or by the length where there is none |
| MlsGroupJudgement.PermitsExactly | src/mls/MlsGroup.ts:430-443 | A commit is permitted exactly if everyone it adds is admitted at its frontier and the policy allows the change from the baseline to it |
| MlsGroupJudgement.UnreadIsRejected | src/mls/MlsGroup.ts:562-596 | What cannot be read, is of another epoch or cannot be processed is rejected; what is no commit that can be told is rejected unless the group waits |
| MlsGroupJudgement.WithheldExactly | src/mls/MlsGroup.ts:477-540 | A commit that binds withheld operations is kept as a witness of its committer, epoch and frontier beside the others, and the chain is cut before the first add at or past a withheld witness with no commit of this very identity and device from there on |
| MlsGroupJudgement.BuildsAndConfirms | src/mls/MlsGroup.ts:617-665 | A commit is built exactly if nothing is withheld, the library builds it and it is allowed from the frontier bound to the latest; confirmed at once it is the next of the chain, from the very state, binding that frontier |
| MlsGroupProvenance.EveryCommitWasAllowed | src/mls/MlsGroup.ts:576-604 | Over any run, every commit of another member in the chain was put there by a call whose policy admitted everyone it adds and allowed it from the frontier bound before it, and every own one was built by a call that was allowed to; the chain of frontiers starts with the group's first |
| MlsGroupRaces.EveryGroupOnTrail | src/mls/MlsGroup.ts:90-96 | Every group, over any history and its own commits included, is on one linked trail of commits from each place it keeps every state from |
| MlsGroupRaces.DeliveryRetrails | src/mls/MlsGroup.ts:365-398 | With nothing withheld, a delivery at or past a place changes the chain from there exactly by putting a valid record at its place over a weaker rival or at the end, whoever made the commits before |
| MlsGroupProgress.ExceedsTransitive | src/mls/MlsGroup.ts:400-410 | The lexicographic order of chains, extension above prefix and stronger rival above weaker, is transitive |
| MlsGroupProgress.ExceedsIrreflexive | src/mls/MlsGroup.ts:400-410 | No chain is above itself in that order |
| MlsGroupProgress.ChangeExceeds | src/mls/MlsGroup.ts:365-398 | In every group and under any policy, a commit taken leaves a chain above the one before: extended, or with a stronger commit in the place of a weaker |
| MlsGroupProgress.DeliveriesExceed | src/mls/MlsGroup.ts:400-410 | With nothing withheld, any deliveries to any group that they leave in it either change nothing at all or end on a chain above the one before |
| MlsGroupProgress.NeverOscillates | src/mls/MlsGroup.ts:400-410 | Whatever its history and whatever is delivered, a group never returns to a chain it left |
| MlsGroupProgress.DisallowedNeverWinsBack | src/mls/MlsGroup.ts:400-428 | While a chain agrees up to a commit the latest roster allows, no deliveries put one it disallows in that place, whatever frontier, priority or id it has |
| MlsGroupProgress.FinitelyManyChanges | src/mls/MlsGroup.ts:922-941 | n commits for m epochs from the first state kept change a group of any history fewer than (n + 1)^m times, however often and in whatever order they come |
| MlsGroupConvergence.GreedyIsUnique | src/mls/MlsGroup.ts:400-410 | Only one chain holds at each epoch the strongest of the rivals valid there |
| MlsGroupConvergence.TakenIsAnsweredOnward | src/mls/MlsGroup.ts:400-410 | Once a commit is on the chain, no chain above that one ever needs it again: what drops it is stronger, or leaves the branch it was made in for good |
| MlsGroupConvergence.ConfirmKeepsCourse | src/mls/MlsGroup.ts:962-982 | Confirming an own commit extends the chain as taking its record would, and that commit never has to be taken again |
| MlsGroupConvergence.EventsKeepCourse | src/mls/MlsGroup.ts:922-987 | Over any run of commits shown, own commits built, confirmed, refused or abandoned and messages, the chain from a place on only rises in the order of chains |
| MlsGroupConvergence.EndsOnGreedyChain | src/mls/MlsGroup.ts:922-941 | Any such run of a device with any past, and then one pass over the commits in ascending epochs within the retained window, end on that chain for all the commits but its own that it neither holds, reads back nor adopted on confirming |
| MlsGroupConvergence.GreedyExists | src/mls/MlsGroup.ts:400-410 | Every set of commits has such a chain |
| MlsGroupConvergence.EndsOnGreedyExactly | src/mls/MlsGroup.ts:962-982 | The device ends on the chain of the strongest of all the commits exactly if none of those is an own one it lost so |
| MlsGroupJudgement.GreedyHoldsStrongest | src/mls/MlsGroup.ts:400-428 | On that chain no commit that could be taken in the place of another is stronger |
| MlsGroupJudgement.EndsOnStrongest | src/mls/MlsGroup.ts:400-428 | At each place of the chain a device ends on, no commit it did not lose that could be taken in the state and from the frontier before it is stronger, and none could be taken next |
| MlsGroupConvergence.DevicesConverge | src/mls/MlsGroup.ts:400-410 | Devices with their own libraries and pasts that come from one branch and see the same commits in different orders end in one branch exactly if neither lost an own commit of the chain of the strongest; they then agree on frontier and chain |
| MlsGroupConvergence.SameBranchConverge | src/mls/MlsGroup.ts:400-410 | So do any two devices now in one branch with one frontier, however each got there: all they can lose are own commits not adopted on the way |
| MlsGroupWindow.DroppedExactly | src/mls/MlsGroup.ts:671-682 | Over any run, the state before the commit held for an epoch is dropped exactly if a commit for 8 epochs later or more was taken and none for that epoch since |
| MlsGroupWindow.StaleExactlyOnceOutlived | src/mls/MlsGroup.ts:922-940 | In every group a run reaches, a rival for an earlier epoch is ignored as stale, however strong, exactly in that case; more than 8 epochs on it always is |
| MlsGroupDivergence.LateRivalDiverges | src/mls/MlsGroup.ts:675-682 | An input with one epoch more than the window, each commit of one branch: two equal groups see the same commits, a stronger rival late or early, and the one ends nine epochs on, the other at epoch 1, however often they see them again |
| MlsGroupDivergence.RefusedOwnDiverges | src/mls/MlsGroup.ts:962-982 | An input within the window: two equal devices each build a commit they cannot read back; the one shown the weaker before it confirms the stronger is refused, and they stay on different branches however often they see both again |
| MlsGroups.AnyWithheld | src/mls/MlsGroup.ts:308-312 | Tells whether the policy withholds any witness |
| MlsGroups.EarliestWithheldEpoch | src/mls/MlsGroup.ts:508-515 | The fold over the witnesses finds the epoch `EarliestIsEarliest` characterises |
| MlsGroupInvariant.EarliestIsEarliest | src/mls/MlsGroup.ts:508-515 | That epoch is at most the current one and every withheld witness's, and is one of them |
| MlsGroups.NextAfterOwn | src/mls/MlsGroup.ts:517-523 | Finds the place after this device's last own commit |
| MlsGroups.FindAdd | src/mls/MlsGroup.ts:524-526 | Finds the first adding commit at or past an epoch from there on |
| MlsGroups.CollectStatesBeyond | src/mls/MlsGroup.ts:531-536 | Collects the states kept before the commits past one |
| MlsGroups.DeleteFrom | src/mls/MlsGroup.ts:539 | Deleting keys one at a time leaves exactly the entries below the first one deleted |
| MlsGroups.Resume | src/mls/internal/MlsGroupRules.ts:298-312 | Returns the stashed state of the branch or the fresh one, and leaves the stashed states past its epoch |
| MlsGroups.MlsGroup.constructor | src/mls/MlsGroup.ts:275-287 | Starts a group that keeps the invariant |
| MlsGroups.MlsGroup.KeepWitness | src/mls/MlsGroup.ts:481-494 | Keeps a withheld commit as a witness and tells whether the group now waits |
| MlsGroups.MlsGroup.Take | src/mls/MlsGroup.ts:675-682 | The loop over the map computes the model's chain, states past retention dropped |
| MlsGroups.MlsGroup.StepBack | src/mls/MlsGroup.ts:507-540 | Steps back without rejecting to the model's result, and keeps the invariant |
| MlsGroups.MlsGroup.JudgeCommit | src/mls/MlsGroup.ts:562-596 | Judges as the model does, and remembers a witness only for a commit held |
| MlsGroups.MlsGroup.Adopt | src/mls/MlsGroup.ts:597-614 | The whole new group after a commit is accepted |
| MlsGroups.MlsGroup.Advance | src/mls/MlsGroup.ts:553-615 | The whole new group and outcome of a contested record |
| MlsGroups.MlsGroup.Replace | src/mls/MlsGroup.ts:365-398 | Switching to a rival gives the group and outcome of the model's `ApplyCommit` |
| MlsGroups.MlsGroup.ApplyCommit | src/mls/MlsGroup.ts:922-941 | In-place updates compute the model's group and outcome for every record, and keep the invariant |
| MlsGroups.MlsGroup.BuildCommit | src/mls/MlsGroup.ts:617-665 | Changes nothing but the pending commit, and only when not waiting, not removed and allowed |
| MlsGroups.MlsGroup.Confirm | src/mls/MlsGroup.ts:962-982 | The whole new group and outcome of adopting or dropping the pending commit |
| MlsGroups.MlsGroup.Abandon | src/mls/MlsGroup.ts:985-987 | Only the pending commit goes |
| MlsGroups.MlsGroup.MoveRatchets | src/mls/MlsGroup.ts:873-891 | A message moves only the ratchets of the current epoch |
| CallMediaReplayWindows.AdmitsExactlyTheNew | src/internal/CallMediaReplayWindow.ts:16-35 | After any run of offers a sequence is admitted exactly if it is above the highest, or within the last 1024 and never accepted; none was accepted twice |
| CallMediaReplayWindows.CallMediaReplayWindow.constructor | src/internal/CallMediaReplayWindow.ts:6-10 | A new array of flags stands for the empty window |
| CallMediaReplayWindows.CallMediaReplayWindow.Admits | src/internal/CallMediaReplayWindow.ts:29-35 | The circular flags answer as the set of every sequence accepted |
| CallMediaReplayWindows.CallMediaReplayWindow.Accept | src/internal/CallMediaReplayWindow.ts:16-27 | Clearing and setting slots keeps the array in step with the ideal window, jumps past the buffer included |
| CallMediaFrameOpenerModel.EveryInterleavingIsSafe | src/CallMediaFrameOpener.ts:79-128 | Over every interleaving of opens, keys added, failures and forgeries: no frame header is delivered twice, epochs of deliveries never decrease, each delivery opened under its epoch's key, at most 2 epochs and 64 sealers an epoch are held, and windows hold exactly what was delivered |
| CallMediaFrameOpenerModel.StepKeepsInv | src/CallMediaFrameOpener.ts:34-128 | Every stretch between awaits keeps the invariant behind that, in whatever order calls resume |
| CallMediaFrameOpenerModel.FinishedDeliversOrEnds | src/CallMediaFrameOpener.ts:110-127 | The end of an open delivers its own frame or changes nothing but the call; a frame that fails to authenticate spends no sequence and no sealer |
| CallMediaFrameOpenerModel.DecryptedEnds | src/CallMediaFrameOpener.ts:115-127 | A call whose frame came back from decryption is over, delivered or not: it alone leaves the calls under way, no import is touched, and its frame coming back again changes nothing |
| CallMediaFrameOpenerModel.DeliversExactlyTheNew | src/CallMediaFrameOpener.ts:63-77 | An open delivers exactly if its frame opens, its epoch object is still held, its sequence is not delivered nor 1024 or more below a delivered one, and its sealer is known or finds room |
| CallMediaFrameOpenerModel.UndisturbedDeliversExactly | src/CallMediaFrameOpener.ts:104-128 | A whole call that nothing disturbs delivers exactly the frames of a held epoch that open under its key, were not delivered, are not 1024 or more below a delivered one, and are of a sealer known or with room |
| CallMediaFrameOpenerModel.ChecksExactlyTheNew | src/CallMediaFrameOpener.ts:111-114 | With a known sealer exactly the calls of a new sequence go on to decrypt; with a new one all whose key was derived, whatever another call retained meanwhile |
| CallMediaFrameOpenerModel.AddsExactlyLaterKeys | src/CallMediaFrameOpener.ts:79-95 | Exactly keys for an epoch past every one before are added; the new epoch is held, and only the earliest goes, only to make room |
| CallMediaFrameOpenerModel.ImportEndsItsEpoch | src/CallMediaFrameOpener.ts:96-101 | Whatever happens while a key is imported, a good import leaves every epoch held, and a failed one ends exactly the epoch the key was added for |
| CallMediaFrameOpenerModel.AddedKeyDelivers | src/CallMediaFrameOpener.ts:79-128 | A key added and imported opens: the first frame of its epoch that opens under it is delivered as what it opens to |
| CallMediaFrameOpenerModel.FailedImportDeliversNothing | src/CallMediaFrameOpener.ts:96-101 | After a failed import nothing of its epoch is delivered any more, whatever is added and opened |
| CallMediaFrameOpenerModel.DeliveryDropsOlder | src/CallMediaFrameOpener.ts:121-122 | A delivery leaves exactly its own epoch held if that is the latest, and else every one |
| CallMediaFrameOpenerModel.HeldAtOrPast | src/CallMediaFrameOpener.ts:119-120 | With two epochs held, one that is not the latest is the earliest, so epochs dropped are always behind |
| CallMediaFrameOpenerModel.BegunOpens | src/CallMediaFrameOpener.ts:79-95 | A key added is refused, or opens an epoch object past every one before with at most 2 epochs left held |
| CallMediaFrameOpeners.CallMediaFrameOpener.KeepsInv | src/CallMediaFrameOpener.ts:16-128 | Over any calls, in whatever order they resume, the object with its circular windows keeps the safety invariant |
| CallMediaFrameOpeners.CallMediaFrameOpener.constructor | src/CallMediaFrameOpener.ts:16-33 | A new opener holds nothing and is valid |
| CallMediaFrameOpeners.CallMediaFrameOpener.EarliestEpoch | src/CallMediaFrameOpener.ts:94-95 | The scan of the keys finds the least epoch |
| CallMediaFrameOpeners.CallMediaFrameOpener.IsLatestHeld | src/CallMediaFrameOpener.ts:121 | The scan of the keys tells whether an epoch is the greatest |
| CallMediaFrameOpeners.CallMediaFrameOpener.DropEpochsBefore | src/CallMediaFrameOpener.ts:34-37 | Deletes exactly the epochs before one |
| CallMediaFrameOpeners.CallMediaFrameOpener.Retain | src/CallMediaFrameOpener.ts:63-77 | Records a sequence in the circular window of its sealer, or refuses it and changes nothing; every other window stays as it was, and each stays its sealer's own |
| CallMediaFrameOpeners.CallMediaFrameOpener.AddKey | src/CallMediaFrameOpener.ts:79-95 | The first stretch of `addKey` keeps the object valid, so safe, and a step of the model; a rejection changes nothing |
| CallMediaFrameOpeners.CallMediaFrameOpener.Imported | src/CallMediaFrameOpener.ts:97-101 | The end of `addKey` keeps the object valid, so safe, and a step of the model: a failed import drops its epoch, a good one nothing |
| CallMediaFrameOpeners.CallMediaFrameOpener.Open | src/CallMediaFrameOpener.ts:104-111 | The first stretch of `open` keeps the object valid, so safe, and a step of the model |
| CallMediaFrameOpeners.CallMediaFrameOpener.Derived | src/CallMediaFrameOpener.ts:111-115 | The second stretch of `open` keeps the object valid, so safe, and a step of the model: the circular window answers as the set of all accepted |
| CallMediaFrameOpeners.CallMediaFrameOpener.Decrypted | src/CallMediaFrameOpener.ts:115-127 | The end of `open` keeps the object valid, so safe, and a step of the model; it returns the plaintext exactly when a delivery was recorded |
| PrivateAuthorizationPolicies.AcceptsExactlyWellFormed | src/internal/PrivateAuthorizationPolicyEncoding.ts:56-82 | The set-size checks accept exactly the policies with distinct devices and credentials, distinct admitted authorities, a reachable threshold, and roles held by those entitled |
| PrivateAuthorizationPolicies.AcceptsExactlyWellFormedDevices | src/internal/PrivateAuthorizationPolicyEncoding.ts:13-31 | Exactly the device lists of 1 to 128 with no key and no credential twice |
| PrivateAuthorizationPolicies.AcceptsExactlyWellFormedAuthorities | src/internal/PrivateAuthorizationPolicyEncoding.ts:33-45 | Exactly the nonempty lists of distinct admitted keys; their own bound of 128 follows |
| PrivateControls.GenesisPolicyIsWellFormed | src/internal/PrivateGenesisEncoding.ts:49-82 | The one-owner policy a genesis may carry is a well-formed policy |
| PrivateControls.ChainKeeps | src/internal/PrivateControlEncoding.ts:49-115 | After n verified transitions revision and epoch are n, at most 2^53 - 1, scope and both lease keys are the genesis's, and the policy is well formed |
| PrivateControls.ChainIsAccepted | src/internal/PrivateControlEncoding.ts:32-47 | The checkpoint each transition leaves is one the next verification takes |
| PrivateControls.QuorumSigned | src/PrivateControlSignature.ts:12-44 | Each transition is signed by at least the previous threshold of distinct previous authorities, all admitted, the sequencer among them, and by no one else; each signature is 64 bytes that verify the control under the signer's 32 |
| PrivateControls.AuthorityComesFromOwner | src/PrivateControlSignature.ts:12-44 | The owner alone signs the first transition, and whoever else signs a later one was made an authority by a verified transition before it |
| PrivateControls.ProposedVerifiesExactly | src/internal/PrivateControlEncoding.ts:80-115 | From an accepted checkpoint exactly the well-formed policies with its lease keys can follow, signed by exactly the quorums of its own policy, until the counters reach 2^53 - 1 |
| PrivateControls.VerifiesExactly | src/PrivateControlSignature.ts:46-94 | After a checkpoint exactly one control verifies for a policy, operation, message and context, if the policy is well formed with its lease keys, the counters do not run out, and enough of the authorities before, the sequencer among them and no one else, signed it with signatures that verify |
| PrivateControls.GenesisVerifiesExactly | src/PrivateGenesisSignature.ts:38-71 | For an owner, scope and context exactly the one-owner geneses with some credential and a lease key not the owner's verify, signed by the owner alone with a signature that verifies |
| PrivateControls.EqualHeadsEqualHistories | src/internal/PrivateControlEncoding.ts:65-78 | Equal head hashes mean equal revisions and equal heads and policies all the way back to one genesis and owner |
| PrivateControls.HeadsNeverRepeat | src/internal/PrivateControlEncoding.ts:49-63 | No head hash belongs to two revisions, in one chain or two |
| PrivateControls.OneOperationAHead | src/PrivateControlSignature.ts:66-67 | Operations that lead to one head, in one chain or two, are one operation at one revision with one context |
| PrivateControls.ForksShareSigners | src/PrivateControlSignature.ts:12-44 | Two transitions verified after one head share the sequencer and at least twice the threshold less the number of authorities |
| PrivateDeliveryModel.AcceptsExactlyConsecutive | src/mls/AuthenticatedPrivateDeliverySchedule.ts:70-112 | A sequence is accepted exactly if it is consecutive days from some start with one retention within 30 days, no mailbox and no key shared |
| PrivateDeliveryModel.GeneratedPass | src/mls/PrivateDeliveryKeySchedule.ts:130-170 | No descriptor of an accepted request fails its own checks, up to the last date there is |
| PrivateDeliveryModel.GeneratedIsAccepted | src/mls/PrivateDeliveryKeySchedule.ts:130-175 | With identifiers and keys drawn apart, a generated schedule is a sequence the verifier accepts, starting on the UTC day of now, each day with its own mailbox and key |
| PrivateDeliveryModel.DescriptorForTheDay | src/mls/PrivateDeliveryKeySchedule.ts:238-249 | The descriptor found is that of the only day covering the time, and one is found exactly within the days scheduled |
| PrivateDeliveryModel.RetiredAllIsTail | src/mls/PrivateDeliveryKeySchedule.ts:302-312 | Any run of retirements leaves a tail: exactly the days that outlast every time retired at |
| PrivateDeliveryModel.RetiredAllIsAccepted | src/mls/AuthenticatedPrivateDeliverySchedule.ts:70-112 | What retirements leave, if anything, the verifier still accepts |
| PrivateDeliveryModel.RetiresExactlyTheSpent | src/mls/PrivateDeliveryDescriptor.ts:99-108 | A key is destroyed exactly once every expiry its descriptor ever accepts has passed |
| PrivateDeliveryModel.AcceptedWriteStaysOpen | src/mls/PrivateDeliveryKeySchedule.ts:251-282 | A write accepted at t with expiry x keeps its key and passes every check of times at all times from t to x, whatever was retired until then |
| PrivateDeliveryModel.OpensOnlyInTime | src/mls/PrivateDeliveryEnvelope.ts:33-45 | Nothing opens before its day, past its expiry, or with an expiry its day never accepts |
| PrivateDeliveryModel.RevokesOnlyThose | src/mls/PrivateDeliveryKeySchedule.ts:314-331 | A revoked mailbox opens nothing; every other opens exactly what it did |
| PrivateDeliveryModel.RevokedIsAcceptedExactly | src/mls/PrivateDeliveryKeySchedule.ts:314-331 | A revoked schedule is still accepted by the verifier exactly if the days not revoked are all the days from one to another |
| PrivateDeliveryKeySchedules.PrivateDeliveryKeySchedule.constructor | src/mls/PrivateDeliveryKeySchedule.ts:205-207 | Starts with the entries given, not destroyed |
| PrivateDeliveryKeySchedules.PrivateDeliveryKeySchedule.Destroy | src/mls/PrivateDeliveryKeySchedule.ts:333-337 | Zeroes every byte of every key, once |
| PrivateDeliveryKeySchedules.PrivateDeliveryKeySchedule.Transition | src/mls/PrivateDeliveryKeySchedule.ts:213-224 | The new schedule owns fresh copies of the keys retained, the old one only zeros; a destroyed one is left alone |
| PrivateDeliveryKeySchedules.PrivateDeliveryKeySchedule.Retire | src/mls/PrivateDeliveryKeySchedule.ts:302-312 | The new schedule holds exactly the entries that outlast the time; a rejection changes nothing |
| PrivateDeliveryKeySchedules.PrivateDeliveryKeySchedule.Revoke | src/mls/PrivateDeliveryKeySchedule.ts:314-331 | Succeeds exactly for distinct mailboxes all held, with exactly the others kept; a rejection changes nothing |
| PrivateDeliveryKeySchedules.PrivateDeliveryKeySchedule.DescriptorFor | src/mls/PrivateDeliveryKeySchedule.ts:238-249 | The search returns the first descriptor that covers the time |
| PrivateDeliveryKeySchedules.PrivateDeliveryKeySchedule.Open | src/mls/PrivateDeliveryKeySchedule.ts:251-282 | The search and checks yield the key the model opens with, or none |
| PrivateDeliveryKeySchedules.PrivateDeliveryKeySchedule.Generate | src/mls/PrivateDeliveryKeySchedule.ts:130-175 | Succeeds exactly for an accepted request, with the model's descriptors and the keys drawn |
| ProofOfWorkEncoding.PreimagesEqualExactly | src/internal/ProofOfWorkEncoding.ts:93-148 | Challenge and nonce are hashed as the same bytes exactly if kind, fields, set of networks in any order, and nonce are the same |
| ProofOfWorkEncoding.EncodesExactlyWellFormed | src/internal/ProofOfWorkEncoding.ts:41-80 | A challenge has bytes exactly if its fields are 1 to 256 visible ASCII characters and its networks 1 to 64 and distinct |
| ProofOfWorkEncoding.PrefixCancels | src/internal/ProofOfWorkEncoding.ts:53-65 | A length-prefixed text can be told from whatever follows it |
| ProofOfWorkEncoding.ConcatParts | src/internal/ProofOfWorkEncoding.ts:20-32 | The buffer filled through a moving offset holds the parts end to end |
| ProofOfWorkEncoding.LengthPrefixedBytes | src/internal/ProofOfWorkEncoding.ts:53-65 | The buffer filled character by character is the prefixed text |
| ProofsOfWork.LeadingZeroBits | src/internal/ProofOfWorkEncoding.ts:118-129 | The loop over every byte counts the zero bits up to the first one bit |
| ProofsOfWork.ZeroBitsBoundValue | src/internal/ProofOfWorkEncoding.ts:118-129 | A digest shows at least k zero bits exactly if its big-endian number is below 2^(8n - k) |
| ProofsOfWork.NoncesAreDecimals | src/internal/ProofOfWorkEncoding.ts:110-116 | The nonces accepted are exactly the decimals of the numbers of at most 16 digits |
| ProofsOfWork.ProofOfWork.Mint | src/ProofOfWork.ts:62-77 | Returns the decimal of the least counter below 2^(bits + 7) with enough work, and rejects exactly if there is none |
| ProofsOfWork.ProofOfWork.MintSync | src/ProofOfWork.ts:79-94 | The same for the least counter that has enough work and that the caller's test accepts, when it has been asked exactly the nonces with enough work before; the test may keep state |
| ProofsOfWork.SearchesAgree | src/ProofOfWork.ts:62-94 | Two searches whose callers accept the same nonces find the same, so both forms of minting agree when every nonce is accepted |
| ProofsOfWork.FoundVerifies | src/ProofOfWork.ts:79-103 | Every nonce minted verifies at its difficulty, passed the caller's test as asked, and has at most 12 digits |
| ProofsOfWork.VerifiesExactly | src/ProofOfWork.ts:96-103 | A nonce verifies exactly if it is canonical and the hash's number is below 2^(256 - bits) |
| ProofsOfWork.ProofOfWork.Verify | src/ProofOfWork.ts:96-103 | Rejects a bad difficulty, and else answers as `VerifiesExactly` characterises |
| BigEndian.WrittenValue | src/mls/internal/BinarySecretCodec.ts:83-84 | Bytes written for a number spell it modulo what they can hold, as `setUint32` wraps around |
| BinarySecretCodec.DecodesEncoded | src/mls/internal/BinarySecretCodec.ts:38-92 | What was encoded decodes to its parts exactly if every part is shorter than 2^32 |
| BinarySecretCodec.DecodesEncodedBelowWord | src/mls/internal/BinarySecretCodec.ts:38-61 | Under any bound below 2^32 every encoding decodes to its parts, and is refused for any other number of them |
| BinarySecretCodec.EncodesDecoded | src/mls/internal/BinarySecretCodec.ts:38-61 | What decodes is the one encoding of the parts read, but for the encoding of no parts |
| BinarySecretCodec.NoPartsDecode | src/mls/internal/BinarySecretCodec.ts:38-61 | Exactly one encoding of no parts decodes, and it is never written |
| BinarySecretCodec.Encode | src/mls/internal/BinarySecretCodec.ts:63-92 | The array written through a moving offset is the encoding, and is refused in the same cases |
| BinarySecretCodec.Measure | src/mls/internal/BinarySecretCodec.ts:67-75 | The length added up part by part is that of the encoding |
| BinarySecretCodec.Decode | src/mls/internal/BinarySecretCodec.ts:38-61 | The loop reads every part in range and returns what the specification decodes |
| MlsRosterFrontier.DigestsAreEncodings | src/mls/MlsRosterFrontier.ts:17 | The pattern matches exactly the strict encodings of 32 bytes |
| MlsRosterFrontier.ValidatesExactly | src/mls/MlsRosterFrontier.ts:20-32 | The pairwise checks accept exactly the strictly ascending lists of at most 256 digests |
| MlsRosterFrontier.EncodesExactly | src/mls/MlsRosterFrontier.ts:34-42 | A frontier is encoded exactly if it is at most 256 digests with none twice, in any order |
| MlsRosterFrontier.DecodesEncoded | src/mls/MlsRosterFrontier.ts:34-55 | Every encoding fits the bound and decodes to the frontier in order |
| MlsRosterFrontier.EncodesDecoded | src/mls/MlsRosterFrontier.ts:44-55 | What decodes is in order and is the one encoding of the frontier read |
| MlsRosterFrontier.EncodesAlike | src/mls/MlsRosterFrontier.ts:34-42 | Frontiers share an encoding exactly if they are the same set |
| CanonicalBase64Url.EncodingSpellsTheBits | src/internal/CanonicalBase64Url.ts:6-12 | The digits of an encoding, read as one number, are the bits of the bytes and then only zeros |
| CanonicalBase64Url.EncodedLength | src/internal/CanonicalBase64Url.ts:6-12 | n bytes take exactly ceil(4n/3) digits |
| CanonicalBase64Url.DecodesExactlyEncodings | src/internal/CanonicalBase64Url.ts:14-29 | The decoder returns some bytes exactly if the text is their encoding and they are as many as asked |
| CanonicalBase64Url.DecodesExactlyBoundedEncodings | src/internal/CanonicalBase64Url.ts:31-42 | The bounded decoder returns some bytes exactly if the text is their encoding and they are within the bound |
| CanonicalBase64Url.DecodesExactlyCanonical | src/internal/CanonicalBase64Url.ts:14-29 | A text decodes exactly if it is of the alphabet, of the right length, and its spare bits are zero |
| CanonicalBase64Url.LengthRecovered | src/internal/PrivateNetworkSealedEnvelope.ts:47-55 | floor(ceil(4n/3) * 3/4) is n |
| MailboxEnvelope.BucketsFit | src/MailboxEnvelope.ts:47-62 | Exactly the lengths up to 65504 have a bucket, and it is the least that holds them |
| MailboxEnvelope.BodiesTellBuckets | src/MailboxEnvelope.ts:93-98 | The length of a body tells its bucket |
| MailboxEnvelope.UnframesFramed | src/MailboxEnvelope.ts:107-115 | The frame of a plaintext yields the plaintext |
| MailboxEnvelope.FramesUnframed | src/MailboxEnvelope.ts:107-115 | A frame accepted is the one frame of what it yields |
| MailboxEnvelope.Frame | src/MailboxEnvelope.ts:72-76 | The zeroed buffer filled with length and plaintext is the frame |
| MailboxEnvelope.SealsExactly | src/MailboxEnvelope.ts:64-85 | Exactly the plaintexts of at most 65504 bytes can be sealed, under keys that pass their checks |
| MailboxEnvelope.OpensSealed | src/MailboxEnvelope.ts:87-119 | Opening undoes sealing for every plaintext that can be sealed |
| MailboxEnvelope.OpensFramed | src/MailboxEnvelope.ts:87-119 | A plaintext sealed in any bucket that holds it opens, whether or not it is the least |
| MailboxEnvelope.OpensOnlySealed | src/MailboxEnvelope.ts:87-119 | A body that opens, under keys that pass their checks, is the sealing of what it opens to, in one of the four buckets |
| MailboxEnvelope.SealsOpenedExactly | src/MailboxEnvelope.ts:64-119 | A body that opens is one `seal` itself writes exactly if it is as long as the least bucket makes it |
| MailboxEnvelope.LargerBucketOpens | src/MailboxEnvelope.ts:87-119 | An input that shows the difference: the empty plaintext in the second bucket opens, and is no sealing under any nonce |
| MailboxEnvelope.ContextSpells | src/MailboxEnvelope.ts:30-47 | The associated data are the mailbox's 43 digits, a dot and the envelope's 22 |
| MailboxEnvelope.OpensOnlyWhereSealed | src/MailboxEnvelope.ts:30-119 | Under a cipher that binds what it seals to key and associated data, a body opens under exactly the key, mailbox and envelope it was sealed for |
| PrivateNetworkSealedEnvelope.OpensSealed | src/internal/PrivateNetworkSealedEnvelope.ts:41-84 | Opening undoes sealing for every plaintext within the bound and refuses every longer one |
| PrivateNetworkSealedEnvelope.OpensOnlySealed | src/internal/PrivateNetworkSealedEnvelope.ts:41-64 | An envelope that opens is the sealing of what it opens to |

## Left out

- The MLS library, tree and key schedule, exporters and commit building: `Protocol` stands for them. Processing depends only on the branch, not on ratchets, and whether this device still holds a leaf is told by the branch.
- `membershipChange`, `leafAt`, `contextOf` and credential checks in `src/mls/internal/MlsGroupRules.ts`: the change a commit makes is part of what processing yields.
- Errors thrown by the membership policy, which the source passes through: the policy answers every question. All rejections are one outcome, without error classes.
- Concurrent calls of one `MlsGroup`: it has no lock, so each call is one step.
- Creating, joining, restoring and serialising a group beyond its first state, and the contents of messages sent and opened.
- DevicesConverge: is about a policy that withholds nothing and answers alike on all devices, commits of the 8 epochs from where they agree, and devices no commit removes; that the lost commits decide in both directions is for devices with no own commit in common.
- RetakeUndoesStepBack: says nothing of the witnesses the group had before the withheld commit; they are cleared when anything is retaken.
- Frames and sealer keys of call media: reading a header and opening a frame are functions, and a derivation or import may fail at will. An epoch object shared by reference between calls is its index in a list that only grows.
- Canonical JSON, its size limits and record shapes: records arrive as values with exactly their fields, and different records have different texts.
- Where control texts are only compared and decoded, `Text` is abstract and the strict decoder a parameter; `CanonicalBase64Url` proves what that decoder takes.
- SHA-256, AES-GCM, HPKE, X25519 and Ed25519: hash, cipher and signature checks are functions, assumed injective or exact inverses where a lemma says so. Random identifiers, nonces and keys are parameters.
- Restoring and protecting a delivery schedule and its commitment, and the sealing of a delivery envelope: the schedule's times, keys and order are what is modelled.
- Signing control records and genesis records: only their verification decides what a chain holds.
- Sorting: strings are compared character by character, which agrees with UTF-16 order on the ASCII the checks admit.
- Zeroing of buffers other than a delivery schedule's keys.
- `MlsGroupSession`, join packages, frame headers, fingerprints, safety numbers and bearer tokens: guards of one branch or short arithmetic that would only add easy members.
