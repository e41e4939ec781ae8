# A verified model of the Paxos library and its hash table

The repository is a small Paxos stack in C: proposers send values, one coordinator numbers them, acceptors vote,
learners count votes and call an application when a majority has voted. The applications keep their data in uthash
tables, and the senders use the Internet checksum. This project states what those parts do and proves it.

The project has four parts.

**The handlers.** `Messages`, `Quorums`, `Acceptor`, `LearnerSpec`, `Learner`, `Submission` model the message
format, the majority, and the handlers of every process as classes with the fields of the C structures. Each method
is proved against a specification function (`Phase1a`, `Phase2a`, `Handle`, `RunBatch`, `Accept`, `HandleAll`,
`Stamped`), and those functions are what the systems below are made of. `Bits` gives the word operators, `Sequences` the
removal of one element.

**Two systems.** Both are transition systems over a network that loses, duplicates and reorders datagrams: a hop is
the set of all messages ever sent on it, and receiving takes any of them, any number of times, or none.
`Deployment*` is the system as shipped: proposers submit round-0 values, the coordinator numbers whatever arrives,
acceptors and learners handle whole batches; in `DeploymentCode` the classes take its steps, and `DeploymentRun`
shows that it can deliver. `MultiRound*`, `DecidedLog` and `Misled` put the same handlers under
arbitrary rounds with abstract proposers that follow the classic rule (L. Lamport, "Paxos Made Simple", section 2.2).

**The hash table.** `HashEntries`, `HashExpand`, `HashSort`, `HashTable`, `HashClient` and `BloomFilter` work on the
heap: one set of entries linked twice, through the list in application order and through the bucket chains, with the
table's counters. `MergeSpec` is the merge sort on sequences that the in-place sort is proved against, and `HashLaws`
says what a run of puts, gets and deletes answers. `KvMemory` is the key-value store on that table, behind a learner,
with keys that are pointers into the learner's buffers; `KvLaws` says what its requests do, from their bytes.

**The checksum.** `Checksum` models `csum` and compares it with RFC 1071.

## What is true and what is not

- *The reported vote round.* `handle_phase1a` reports the round just promised (`lib/src/acceptor.c:87`), not the
  round of the last vote, for which `a_state.vrnd` exists. `Acceptor.ReportedVoteRound` says that an accepted message
  never reports the right round. `MultiRound.Config` therefore has a parameter `report`: `AsWritten` is the code,
  `LastVote` the intended report. `Misled.AgreementIff` gives the exact price: all runs agree if and only if the
  report is `LastVote`, or proposers only use a value that all reported votes share, or there are at most two
  acceptors. `Misled.DecidesTwice` builds the run that decides twice in every other configuration.
- *Missed majorities.* On a change of round the learner keeps the old bits and does not test for the majority
  (`lib/src/learner.c:124-129`). It never overcounts (`LearnerSpec.CountIsFreshVoters`), but a majority of votes in one
  round need not finish the instance (`LearnerSpec.MajorityMissed`). `LearnerSpec.FinishedIff` is the exact condition, on
  the messages alone: their rounds, their senders and their order.
- *The sent vector.* The acceptor sends its first `count_accepted` buffers, not the accepted ones
  (`lib/src/acceptor.c:142`). Whether a message is accepted depends on the rounds before it
  (`Acceptor.AcceptedIffAdmitted`), and the vector is that of the replies if and only if the admitted messages come
  first in the batch (`Acceptor.SentVectorIsRepliesIffPrefix`). `Acceptor.RefusedIsSent` is a batch of three for which
  it is not. In the shipped system it always is (`DeploymentSafety.BatchesAreSentWhole`).
- *What acceptors keep.* `strcpy` stops at the first NUL, and a shipped request begins with a binary integer. An
  acceptor keeps the string at the front of a value and zeros (`DeploymentResults.DeliveredIsStored`); what is behind
  it no acceptor holds (`DeploymentResults.TailIsLost`), for request 1 all but one byte
  (`DeploymentResults.BinaryRequest`). Learners receive and deliver all 32 bytes.
- *Two folds.* `csum` folds its sum twice. `Checksum.BufferIsFoldedIff` says for exactly which buffers that is enough,
  and `Checksum.LengthIsFoldedIff` for exactly which lengths it always is: up to 131076 bytes, 65538 words.
  `Checksum.LongBufferFails` is a buffer of one word more for which it is not.

## Idealisations

- Values are C strings that end inside their 32-byte field, because every copy but one is a `strcpy`; requests have
  at most 31 bytes. In the shipped system the 32 bytes of a proposal are never touched on the way.
- Acceptor ids are distinct and below 31, because a learner shifts `1` by them.
- The host is little-endian with a 64-bit `long`: the sum of `csum` does not wrap, and the timestamp of a request
  is 16 bytes from offset 8. Instance numbers of the coordinator stay below 2^31 - 1.
- In the multi-round system there is one value per instance and round, values are not empty (`vrnd == 0` alone does
  not tell "no vote" from "voted in round 0"), and only phase 2b messages are handed to learners, since the learner
  does not look at `msgtype`. In the shipped system no other message exists (`DeploymentResults.OnlyRoundZeroVotes`).
- In the multi-round system acceptors reply message by message. The sent-vector fault of a batch shows there as lost
  replies only: what a batch sends and a learner could take for a vote is a reply (`Acceptor.SentVoteIsReply`), and
  the rest falls under the hand-over of phase 2b only.
- A process that meets an instance number of `maxinst` or more stops.
- The hash function is any function of the key. The comparison of the sort is any function of what two
  elements hold, their keys and values, and does not look at their links. The body of the deleting loop decides at each
  visit as it likes.
- An entry is the application's element together with its hash handle; the table pointer and the handle offset that
  every handle carries are the `Table` object itself. Table counters do not wrap.
- An entry's key is the bytes its key pointer led to when it was added. `KvMemory` keeps the pointers beside the
  entries and proves that they always lead to those bytes.

## Model

| member | source | states |
|---|---|---|
| Messages.StrCpy | lib/src/acceptor.c:101-101 | `strcpy` leaves the destination with the source's string, its old length, and its old bytes behind the NUL, whatever it held |
| Messages.StrCpyInto | lib/src/acceptor.c:88-88 | the byte loop of `strcpy` on an array does that, and leaves the bytes behind the NUL |
| Messages.MemCpyInto | lib/src/learner.c:108-108 | `memcpy` of 32 bytes leaves exactly the source block |
| Messages.Pack | lib/src/message.c:21-28 | packing in place puts the five header fields of that message into network byte order and touches nothing else |
| Messages.Unpack | lib/src/message.c:30-37 | unpacking in place does the same in the other direction |
| Messages.Swap32Bytes | lib/src/message.c:22-22 | `htonl` on the little-endian host reverses the four bytes of a word |
| Messages.PackedHeader | lib/src/message.c:21-28 | the twelve header bytes of a packed message in memory are instance, round, vote round, acceptor and type in this order, each big-endian; the value and the client are as before |
| Messages.PackRoundTrip | lib/src/message.c:21-37 | packing and unpacking are inverse, both ways |
| Messages.PackedTypeIsForeign | lib/include/message.h:11-17 | a packed message with a type of the enum never looks like an unpacked one |
| Messages.Initialize | lib/src/message.c:39-46 | all fields but the client are reset, the value block is zeroed |
| Messages.InRangePrefix | lib/src/acceptor.c:125-131 | how far a batch is handled: up to the first instance number out of range |
| Quorums.MajorityIsLeast | lib/src/learner.c:34-35 | the floating-point expression is the least `m` with `2m > n`, and at most `n` |
| Quorums.MajoritiesMeet | lib/src/learner.c:34-35 | any two sets of that many acceptors share a member |
| Quorums.SmallMajorityIsAll | lib/src/learner.c:34-35 | with at most two acceptors every majority is everybody |
| Quorums.HeardAfterOr | lib/src/learner.c:103-106 | or-ing an acceptor's mask into `from` adds that acceptor and no other |
| Acceptor.HandleKeeps | lib/src/acceptor.c:83-107 | rounds never go back and `vrnd <= rnd` is kept; a promise needs a higher round, changes only the round and carries the voted string to the same client; a vote needs a round as high, stores the proposal's string, and answers with the proposal under the own id; a refusal changes nothing |
| Acceptor.ReportedVoteRound | lib/src/acceptor.c:85-91 | the reported round is that of the last vote if and only if the message was refused and carried it already |
| Acceptor.SentVectorIsRepliesIffPrefix | lib/src/acceptor.c:140-153 | with the message types of the enum, what is sent is the packed replies in order if and only if the messages that beat all rounds before them, those at the start and those earlier in the batch, come first in the batch |
| Acceptor.AdmittedFirstIsSent | lib/src/acceptor.c:140-153 | whatever the message types, such a batch is sent as its replies in order |
| Acceptor.AcceptedIffAdmitted | lib/src/acceptor.c:83-107 | a message of a batch is accepted if and only if its round beats the start round and all earlier requests for its instance, strictly for phase 1a |
| Acceptor.RoundIsHighest | lib/src/acceptor.c:83-107 | after a batch the round of an instance is the highest of its start round and the requests for it, refused ones included |
| Acceptor.RefusedIsSent | lib/src/acceptor.c:142-142 | phase 2a of rounds 2, 1, 3 for one instance: the third reply is lost and the refused message is sent |
| Acceptor.SentVoteIsReply | lib/src/acceptor.c:140-153 | even then, a sent buffer that unpacks to a phase 2b is a reply |
| Acceptor.OutcomeIs | lib/src/acceptor.c:109-163 | a batch is the messages handled one at a time up to the first out-of-range one, which suppresses sending |
| Acceptor.AcceptorState.constructor | lib/src/acceptor.c:34-38 | rounds zero, a zeroed buffer of 33 bytes |
| Acceptor.AcceptorState.Table | lib/src/acceptor.c:31-39 | every instance gets a state and a buffer of its own |
| Acceptor.AcceptorCtx.constructor | lib/src/acceptor.c:25-53 | the initial states, nothing accepted, buffers of length `vlen` |
| Acceptor.AcceptorCtx.HandlePhase1a | lib/src/acceptor.c:83-94 | the in-place handler computes `Phase1a` on the state of that instance and the message, and nothing else changes |
| Acceptor.AcceptorCtx.HandlePhase2a | lib/src/acceptor.c:96-107 | the in-place handler computes `Phase2a` likewise |
| Acceptor.AcceptorCtx.HandleSlot | lib/src/acceptor.c:132-149 | dispatch, packing of accepted replies only, and the index that the vector gets |
| Acceptor.AcceptorCtx.Gather | lib/src/acceptor.c:152-153 | following the vector's pointers sends the first `count_accepted` buffers |
| Acceptor.AcceptorCtx.Turn | lib/src/acceptor.c:118-150 | one turn of the loop extends the fold over the batch by one message, or stops on an out-of-range one |
| Acceptor.AcceptorCtx.OnValue | lib/src/acceptor.c:109-163 | states, sent vector and stopping of a whole call are those of the fold; `count_accepted` is back at zero |
| LearnerSpec.FinishedIsFrozen | lib/src/learner.c:101-101 | after an instance is finished no message changes anything of it, its 32 bytes included |
| LearnerSpec.DeliveredOnceAndWhole | lib/src/learner.c:101-123 | over any history an instance is delivered at most once, and the buffer then holds the whole block of the completing vote, no `strcpy` residue |
| LearnerSpec.CountIsFreshVoters | lib/src/learner.c:99-132 | in every history, `rnd` is the highest round seen, `from` is the senders of the messages that were of no lower round than any before them, and `count` is the number of acceptors that moved the learner to the round or were heard in it without having such a message from before |
| LearnerSpec.AcceptTakes | lib/src/learner.c:99-132 | a vote is passed over if and only if the instance is finished, its round is lower, or its sender is in the mask at the current round; otherwise it adds its sender to the mask and leaves its string, and in the current round it leaves its whole block and finishes at the majority |
| LearnerSpec.FinishedIff | lib/src/learner.c:99-132 | a history is finished if and only if one of its prefixes has that many such acceptors for a majority, in round 0 or with a majority of two or more; the condition is on the messages alone |
| LearnerSpec.DeliveryHasMajority | lib/src/learner.c:112-119 | a delivery is backed by a majority of distinct acceptors voting in one round |
| LearnerSpec.MajorityMissed | lib/src/learner.c:124-129 | a history in which two of three vote in round 1 and nothing is delivered |
| LearnerSpec.RoundZeroIsASetOfVotes | lib/src/learner.c:101-123 | with round-0 votes, finished if and only if the set of voters is a majority, whatever the order and repetition; until then `count` is the number of bits set |
| LearnerSpec.InstancesAreIndependent | lib/src/learner.c:100-100 | the state of an instance is what its own messages lead to |
| LearnerSpec.DeliveriesAccount | lib/src/learner.c:112-119 | over any messages, the finished instances are the delivered ones, each once, each buffer still holding its delivery, each delivery one of the messages |
| Learner.PaxosState.Table | lib/src/learner.c:37-47 | every instance gets a state and a buffer of its own |
| Learner.LearnerCtx.constructor | lib/src/learner.c:27-59 | the initial states and the computed majority |
| Learner.LearnerCtx.CountVote | lib/src/learner.c:102-123 | the branch for a message of the current round computes `Accept`, in place |
| Learner.LearnerCtx.ChangeRound | lib/src/learner.c:124-130 | the branch for a message of a higher round computes `Accept`, in place |
| Learner.LearnerCtx.HandleAccepted | lib/src/learner.c:99-132 | the in-place handler computes `Accept` on that instance and calls the application exactly when it finishes |
| Learner.LearnerCtx.Turn | lib/src/learner.c:162-180 | one turn of the loop handles its message, or stops on an out-of-range one |
| Learner.LearnerCtx.OnValue | lib/src/learner.c:152-182 | a batch is the messages handled one at a time, up to an out-of-range instance, which stops the learner |
| Submission.RequestBlock | lib/src/proposer.c:186-188 | a request of at most 31 bytes becomes a block that begins with it and is zero behind it |
| Submission.RequestIsTerminated | lib/src/proposer.c:186-188 | any NUL-free end of the request is a C string in the block, ending where the request ends |
| Submission.Retimed | lib/src/proposer.c:139-142 | a retry replaces the timestamp bytes and no others, and keeps the terminator |
| Submission.RetryKeepsFields | lib/src/proposer.c:139-142 | a retry keeps the request id and operation, the key, and the three bytes of the value that fit the block; bytes 8 to 23 are the new timestamp |
| Submission.Proposer.Submit | lib/src/proposer.c:182-192 | exactly one round-0 phase 2a with this client goes out, its value the request with zeros behind it, and the datagram holds it |
| Submission.Proposer.Retry | lib/src/proposer.c:134-148 | `outstanding` copies of the last datagram, differing in the timestamp only, the last of which stays; nothing before the first submit |
| Submission.StampSetsInstance | lib/src/coordinator.c:115-116 | overwriting the first word of a packed message is setting its instance |
| Submission.SubmissionHeader | lib/src/proposer.c:186-190 | the header bytes of a submission on the wire: the instance, zero rounds, no acceptor, type 3 |
| Submission.Coordinator.OnValue | lib/src/coordinator.c:105-123 | what arrives goes on unchanged but for the next instance number, and the counter goes up by one |
| DeploymentSafety.BatchesAreSentWhole | lib/src/acceptor.c:116-153 | in every reachable state a batch is accepted entirely and sent as its replies in order |
| DeploymentSafety.BallotHeader | lib/src/acceptor.c:102-103 | the header bytes of a shipped vote on the wire: its instance, zero rounds, the id of the acceptor, type 4 |
| DeploymentSafety.StepKeepsInv | lib/src/acceptor.c:96-107 | every step of the shipped system keeps: one pair per instance number, only ballots of those pairs, acceptors in round 0 with buffers as at the start or as one vote leaves them, learners being the fold of the votes they handled |
| DeploymentSafety.RunKeepsInv | lib/src/coordinator.c:105-123 | every run keeps it |
| DeploymentResults.InstancesAreNumberedOnce | lib/src/coordinator.c:115-122 | in every run the instance numbers in use are exactly those below `cur_inst`, one datagram each, each carrying a value and client that were submitted together |
| DeploymentResults.OnlyRoundZeroVotes | lib/src/proposer.c:186-186 | in every run all that is sent to learners is round-0 phase 2b of a real acceptor |
| DeploymentResults.DeliveriesAgree | lib/src/learner.c:101-123 | in every run two deliveries for one instance are the same value and client, some proposer submitted the two together, and no learner delivers an instance twice |
| DeploymentResults.DeliveredIffMajority | lib/src/learner.c:101-123 | in every run a learner has delivered an instance if and only if the votes it handled for it come from a majority |
| DeploymentResults.DeliveredIsStored | lib/src/acceptor.c:101-101 | in every run a majority of the acceptors holds the leading C string of a delivered value, followed by zeros |
| DeploymentResults.TailIsLost | lib/src/acceptor.c:101-101 | in every run no acceptor holds a nonzero byte of a delivered value from its first NUL on: there is a zero in its place |
| DeploymentResults.BinaryRequest | lib/include/message.h:30-36 | a request that begins with the integer 1: a vote for it keeps one byte |
| DeploymentResults.DeliveredBuffersStay | lib/src/learner.c:116-119 | whatever happens after a delivery, the delivered buffer keeps every byte |
| DeploymentResults.DeliveredIsClosed | lib/src/proposer.c:187-188 | in every run a delivered value ends in a NUL |
| DeploymentRun.CanDeliver | lib/src/learner.c:112-119 | for every configuration and every request of at most 31 bytes there is a run that delivers it to its client |
| DeploymentCode.SubmitStep | lib/src/proposer.c:182-192 | a submit is a submit action, and its datagram is what the action sends |
| DeploymentCode.RetryStep | lib/src/proposer.c:134-148 | a retry is one retry action for each copy, and its datagrams are what they send |
| DeploymentCode.NumberStep | lib/src/coordinator.c:105-123 | the coordinator's handler is a numbering action |
| DeploymentCode.AcceptStep | lib/src/acceptor.c:109-163 | the acceptor's handler is an accept action on its own state, with the same messages sent |
| DeploymentCode.LearnStep | lib/src/learner.c:152-182 | the learner's handler is a learn action on its own state |
| DeploymentCode.ProposerStays | lib/src/proposer.c:182-192 | a proposer object goes on standing for its process while any process acts |
| DeploymentCode.CoordinatorStays | lib/src/coordinator.c:105-123 | so does the coordinator while others act |
| DeploymentCode.AcceptorStays | lib/src/acceptor.c:109-163 | so does an acceptor while others act |
| DeploymentCode.LearnerStays | lib/src/learner.c:152-182 | so does a learner while others act |
| MultiRoundSafety.ProposalIsJustified | lib/src/acceptor.c:83-94 | a proposer that follows the rule proposes a value that is safe at its round, under a sound report |
| MultiRoundSafety.StepKeepsInv | lib/src/acceptor.c:83-107 | every step keeps the invariant: what acceptors remember, what promises say, that every proposal is safe at its round, what learners count |
| MultiRoundSafety.RunKeepsInv | lib/src/acceptor.c:83-107 | every run keeps it |
| MultiRoundSafety.ChosenIsKept | lib/src/acceptor.c:83-107 | once a value has a majority in a round, every proposal of a higher round is for it |
| MultiRoundSafety.ChosenIsUnique | lib/src/acceptor.c:83-107 | at most one value is ever chosen for an instance, over all rounds |
| MultiRoundSafety.FinishedIsChosen | lib/src/learner.c:99-132 | a learner finishes only on a value that a majority voted for in one round |
| MultiRoundSafety.Agreement | lib/src/learner.c:99-132 | in every run, with any acceptors, learners, instances and rounds, two learners that finished an instance hold the same value, under a sound report or rule |
| Misled.DecidesTwice | lib/src/acceptor.c:87-87 | in every configuration that is not sound there is a run in which two learners deliver different values |
| Misled.AgreementIff | lib/src/acceptor.c:87-87 | all runs agree if and only if the report is that of the last vote, or the rule demands unanimous reports, or there are at most two acceptors |
| DecidedLog.StepRefinesLog | lib/src/acceptor.c:96-107 | every step of the protocol adds at most one new entry to the log of decided values |
| DecidedLog.LogIsWriteOnce | lib/src/acceptor.c:96-107 | in every run the log only grows and no entry is rewritten |
| DecidedLog.DeliveredIsLogged | lib/src/learner.c:112-119 | what a learner delivers is the log's entry, and that was proposed |
| DecidedLog.DeliveriesAgreeOverTime | lib/src/learner.c:112-119 | deliveries at different times of a run agree |
| DecidedLog.PromiseIsKept | lib/src/acceptor.c:83-107 | after a promise for a round, whatever the report and rule, no phase 2b that acceptor emits is of a lower round, repetitions of old votes included |
| DecidedLog.RoundNeverDecreases | lib/src/acceptor.c:83-107 | over runs, the round of an acceptor never goes back |
| DecidedLog.AcceptorRecord | lib/src/acceptor.c:98-101 | in every run an acceptor's `vrnd` is at most `rnd` and it holds the value of its highest-round vote |
| BloomFilter.IndexInRange | app/include/uthash.h:139-143 | the bit index is the hash modulo the filter size and lies inside the byte array |
| BloomFilter.BytesForBits | app/include/uthash.h:120-121 | the filter has the least number of bytes that hold its bits |
| BloomFilter.Bloom.Add | app/include/uthash.h:136-140 | exactly the selected bit is added |
| BloomFilter.Bloom.Test | app/include/uthash.h:137-143 | the answer is whether that bit is set |
| HashEntries.PushFront | app/include/uthash.h:628-634 | the entry heads its chain, both link directions and the count agree, the other buckets are as before |
| HashEntries.DelInBkt | app/include/uthash.h:642-652 | the entry leaves its chain, both link directions and the count agree, the count is one less, the multiplier and the other buckets are as before |
| HashEntries.FindInBkt | app/include/uthash.h:614-625 | the first entry of the chain with that key, or null and none has it |
| HashEntries.LinkLast | app/include/uthash.h:195-199 | the list in application order is extended by the entry in both directions |
| HashEntries.UnlinkOrdered | app/include/uthash.h:244-254 | the list in application order skips the entry in both directions |
| HashExpand.IdealIsCeiling | app/include/uthash.h:694-696 | the shift and mask compute items per new bucket rounded up, never zero while there are items |
| HashExpand.CeilDivIsLeast | app/include/uthash.h:665-682 | that is the least chain length with room for all items |
| HashExpand.Move | app/include/uthash.h:703-714 | an entry goes to the front of its new bucket, whose multiplier is that of its length |
| HashExpand.MultiplierIsQuotient | app/include/uthash.h:705-709 | the multiplier is how many times the ideal length goes into the chain length, zero up to the ideal length |
| HashExpand.MoveChain | app/include/uthash.h:700-716 | one old chain is emptied into the new buckets, and exactly the non-ideal placements are counted |
| HashExpand.Redistribute | app/include/uthash.h:697-717 | the new buckets hold exactly the old entries, each in the bucket of its hash, and the count is the sum over buckets of the excess over the ideal length |
| HashTable.Table.constructor | app/include/uthash.h:191-191 | an empty table is a null head |
| HashTable.Table.Find | app/include/uthash.h:106-117 | the first entry with the key in the chain of its hash, if there is one, otherwise null and no entry of the table has it, with and without the Bloom filter |
| HashTable.Table.MakeTable | app/include/uthash.h:153-170 | a fresh table with 32 empty buckets whose multipliers are zero, zero counters, expansion on, and an empty filter |
| HashTable.FirstGrowth | app/include/uthash.h:629-638 | the first entry of a new table leaves it at 32 buckets with one entry in one chain and all counters zero |
| HashTable.Table.EnterBucket | app/include/uthash.h:200-204 | the new entry is counted and reaches the bucket of its hash, the buckets doubling exactly at the threshold with expansion on |
| HashTable.Table.Enter | app/include/uthash.h:200-208 | the table part of an add: with the bucket, the same growth, and the filter, the invariant holds for the longer list |
| HashTable.Table.PushInBkt | app/include/uthash.h:628-634 | the bucket part of an add, on the table's own buckets |
| HashTable.Table.AddToBkt | app/include/uthash.h:628-639 | the buckets double exactly when the bucket reaches its multiple of ten and expansion is on, and then `ideal_chain_maxlen`, `nonideal_items`, the multipliers, `ineff_expands` and `noexpand` are those of the new chains; otherwise only this chain and its count change |
| HashTable.Table.Add | app/include/uthash.h:185-208 | the entry comes last in application order and the invariant holds again; the first entry leaves 32 buckets and zero counters; a later one doubles the buckets if and only if it brings the bucket of its hash to the threshold with expansion on, and then all growth counters are those of the new chains; otherwise it only heads that chain |
| HashTable.Table.Delete | app/include/uthash.h:227-260 | that entry and nothing else leaves, the invariant holds again; its chain loses it, no other bucket changes, no multiplier and no growth counter; with the last entry the table goes |
| HashTable.Table.PopFromBkt | app/include/uthash.h:255-257 | the bucket part of a deletion: one chain loses the entry and its count goes down, buckets are never given back |
| HashTable.Table.ExpandBuckets | app/include/uthash.h:683-729 | the same entries in twice the buckets, each at its hash, with `ideal_chain_maxlen`, `nonideal_items`, the multipliers, `ineff_expands` and `noexpand` as defined |
| HashTable.Table.Sort | app/include/uthash.h:736-821 | for any comparison of keys and values, the application order becomes the merge sort of the old one, with head, tail and both links in agreement and no bucket, key or hash touched; where the comparison is a total preorder the list is sorted by it and equal elements keep their order |
| HashTable.Table.CountsAddUp | app/include/uthash.h:297-320 | the counts HASH_FSCK checks: per bucket, and their sum against `num_items` |
| HashSort.Emit | app/include/uthash.h:795-805 | an entry is appended to the part built, linked both ways |
| HashSort.MergeRuns | app/include/uthash.h:761-806 | the merge loop builds the stable merge of the two runs and leaves the rest walkable |
| HashSort.OnePass | app/include/uthash.h:746-811 | one pass is `Pass`, with `nmerges` counted, linked both ways with the right ends |
| HashSort.SortList | app/include/uthash.h:742-818 | the sort terminates and leaves the merge sort of the list, properly linked, without wrap-around of the run length |
| HashSort.SortedAndStable | app/include/uthash.h:736-821 | the merge sort of a list under a total preorder of fields is sorted by those fields, a permutation, and stable |
| MergeSpec.MergeIsStable | app/include/uthash.h:777-794 | merging keeps the order of equal entries, left run first |
| MergeSpec.PassDoublesRuns | app/include/uthash.h:750-808 | a pass turns sorted runs of length k into sorted runs of length 2k |
| MergeSpec.SortIsCorrect | app/include/uthash.h:736-821 | for every total preorder and every length the result is sorted, a permutation, and stable |
| HashClient.IterDelete | app/include/uthash.h:884-892 | a loop whose body decides at each visit whether to delete the current entry visits every initial entry once, in order, and leaves exactly those not deleted |
| HashClient.KeptPlaces | app/include/uthash.h:884-892 | what stays is the initial entries at the places where the body did not delete, each place once, in ascending order |
| HashClient.RunAll | app/include/uthash.h:106-117 | over every run of put, get and delete the answers and the application order are those of the replay on a finite map, with or without the Bloom filter; what these are is told from the operations alone in the rows of `HashLaws` |
| HashLaws.GetAfterPut | app/include/uthash.h:106-117 | a get answers the value of the last put of its key, whatever came before, and whatever happened since to other keys or read this one |
| HashLaws.GetAfterDel | app/include/uthash.h:227-260 | after a deletion of its key, with no put of it since, a get answers nothing |
| HashLaws.GetOfNothing | app/include/uthash.h:106-117 | in a run from the empty table a get of a key that was never put answers nothing |
| HashLaws.OrderOfReplay | app/include/uthash.h:185-208 | from the empty table, the application order holds exactly the keys with a put that no deletion follows, each once, ordered by the first put since the last deletion |
| KvMemory.OneMessage | lib/src/learner.c:101-119 | a message leaves finished instances whole and delivers at most its own value |
| KvMemory.Application.KeyOf | app/kv_memory.c:41-50 | reading a stored key through its pointer into the learner's buffer gives the bytes the table hashed and compares |
| KvMemory.Application.NewEntry | app/kv_memory.c:45-47 | the new entry comes last in the table, its key the pointed-to bytes, all invariants kept |
| KvMemory.Application.AddEntry | app/kv_memory.c:41-50 | a new record exactly where the sought string is no key, otherwise one record with that key has the value at the front of its field, its old bytes behind it, and its old key and pointer; no other record changes |
| KvMemory.Application.DeleteEntry | app/kv_memory.c:60-63 | that record and no other leaves |
| KvMemory.Application.DoPut | app/kv_memory.c:77-84 | the records and the answer of a put; what they are in terms of the bytes sent is told in the rows of `KvLaws` |
| KvLaws.PutLayout | app/kv_memory.c:77-80 | a put encoded as operation, key size, value size, key, value is taken apart into that key and that value; the lookup string is the C string of what begins at the key |
| KvLaws.PutAdds | app/kv_memory.c:41-50 | a put whose lookup string is no key appends one record: that key, a pointer behind the three head bytes, the value at the front of the field |
| KvLaws.PutOverwrites | app/kv_memory.c:49-49 | a put whose lookup string is a key leaves one record with it whose value begins with the new bytes and goes on as before, its key, pointer and all other records as they were |
| KvLaws.GetAnswers | app/kv_memory.c:85-96 | a get answers with the string of a record that has the NUL-terminated key in the request, or says that there is none; no record changes |
| KvLaws.PutThenGet | app/kv_memory.c:71-96 | the value of a put that adds a new key is sent at the front of the answer to the next get of that key |
| KvLaws.DeleteRemoves | app/kv_memory.c:97-110 | a delete of a key that one record has leaves the other records in their order and none with the key |
| KvLaws.DeleteOfNothing | app/kv_memory.c:97-110 | a delete of a key that no record has changes nothing and says so |
| KvMemory.Application.DoGet | app/kv_memory.c:85-96 | a get changes nothing and sends the string of a record with the sought key, or says that there is none |
| KvMemory.Application.DoDelete | app/kv_memory.c:97-110 | one record with the sought key is gone, or there was none and an unset byte is sent |
| KvMemory.Application.Execute | app/kv_memory.c:71-110 | the switch on the request byte: records, return code and reply for every operation |
| KvMemory.Application.Deliver | app/kv_memory.c:66-111 | the next delivery is executed from the delivered buffer itself; surviving entries keep key and pointer |
| KvMemory.Application.Hear | lib/src/learner.c:99-132 | while the learner handles a message, every key pointer keeps denoting its key and no record changes |
| KvMemory.Application.Turn | lib/src/learner.c:119-119 | the application is called inside the turn that finishes an instance, on that value, and not otherwise |
| KvMemory.Application.OnValue | lib/src/learner.c:152-182 | over a batch the learner does what it does by itself; the deliveries are executed in order, each on the records the one before left; entries that stay keep key and pointer; finished instances stay whole; every pointer leads to its key |
| Checksum.BufferIsFoldedIff | lib/src/netpaxos_utils.c:62-83 | for every buffer an int can measure, the result complements a representative of the sum modulo 65535 if and only if the second fold does not carry |
| Checksum.LengthIsFoldedIff | lib/src/netpaxos_utils.c:62-83 | all buffers of a length are folded correctly if and only if the length is at most 131076 bytes |
| Checksum.TwoFoldsSufficeIff | lib/src/netpaxos_utils.c:79-81 | the same for the sum itself |
| Checksum.LongBufferFails | lib/src/netpaxos_utils.c:79-81 | a buffer of 65539 words, one more than the bound, whose checksum is wrong |
| Checksum.SumOfPermutation | lib/src/netpaxos_utils.c:69-72 | word order does not matter |
| Checksum.SwappedChecksum | lib/src/netpaxos_utils.c:62-83 | swapping the bytes of every word swaps the bytes of the result (RFC 1071 section 2 (B)), for all lengths within the bound |
| Checksum.VerifiesToZero | lib/src/netpaxos_utils.c:62-83 | appending the checksum as a word gives checksum zero (RFC 1071 section 1), for all lengths within the bound |
| Checksum.Csum | lib/src/netpaxos_utils.c:62-83 | the loop computes the checksum of the buffer's words, an odd last byte included; a non-positive length counts as none |

## Left out

- HashTable.Table.Sort: assumes at most 2^32 entries, the range of the unsigned item counter.
- KvMemory.Application.Deliver: a request whose string runs past its 32 bytes, a put whose key or value does, or whose
  value is longer than the 10-byte field, and the reply to a get whose value field has no NUL, make the C code leave its
  memory and are not described. The first cannot happen in the shipped system (`DeploymentResults.DeliveredIsClosed`).
- KvMemory.Application.AddEntry: no claim that the store refines a map, because lookup measures a key with `strlen` and
  insertion with the encoded length; with equal keys in the table it is one of them that is found.
- Checksum.Csum: the callers' use of it, which pass a length from before it is updated and do not clear the field; no
  claim is made that outgoing packets carry a valid checksum.
- Sockets, multicast, DNS, IP and UDP headers, libevent, signals, timing, monitoring, configuration: input and output.
- `recover` in `lib/src/learner.c`: never called, and it ignores its instance argument.
- Liveness after a change of round, and delivery by a single acceptor in rounds above 0: not properties of the code.
- A common order of deliveries: instances are delivered as soon as they are chosen.
- `HASH_SELECT`, `HASH_REPLACE`, the hash function bodies, allocation failure and freeing of memory.
- Which replica answers a client in `app/simple_learner.c`: a remainder of the instance number, easy on its own.
- LevelDB and the TCP and UDP servers and clients.
