# D-Voting

A Dafny model of the D-Voting election system: the smart contract that holds a form from its creation to
its published result, the ballot format between the browser and the contract, the threshold decryption
and shuffle protocols of the nodes, and a few smaller parts that feed them. `dafny verify dfyconfig.toml`
checks all of it.

The strongest result is conservation of votes over whole runs (`Tally.TallyConservation`): when a form's
result is available, the published ballots are, with multiplicity, the last accepted ballot of every
voter identifier and nothing else. `Persons.OneBallotPerPerson` says exactly when that is one ballot for each
person, and `EndToEnd.HonestVotersCounted` carries it back, with multiplicity, to the answers that voters
ticked in the browser. `Permissions` says, command by command and over whole runs, who may do what.

## How it is built

| modules | what they hold |
|---|---|
| `PrimeField`, `Interpolation`, `ElGamal` | arithmetic modulo a prime, Lagrange interpolation at zero, ElGamal pairs; a point is written by its discrete logarithm |
| `Text` | splitting, decimal numbers, Base64 (section 4 of RFC 4648), UTF-16 to UTF-8 |
| `Configuration` | the question tree: search, validation, ballot size |
| `BallotReader`, `BallotWriter`, `BallotRoundTrip`, `BallotFits` | the contract's parser, the browser's printer, and their agreement |
| `Suffragia`, `Blocks` | the vote lists, and their storage in blocks of 100 casts |
| `Ledger` | the contract's state and the meaning of every command, as functions |
| `Contract` | the contract as it runs: a class whose methods are proved to do what `Ledger` says |
| `Invariant`, `Runs`, `Lifecycle` | what every reachable store satisfies, the history of a form, safety over whole runs |
| `Permissions` | who may do what, and what it does, command by command and over whole runs |
| `Tally`, `Persons`, `EndToEnd` | conservation of votes, per identifier, per person, and from the browser's answers |
| `Witness` | concrete elections: one that publishes under all assumptions, and those that show where a property fails |
| `Nodes`, `Shuffling`, `Dkg` | shuffling and decrypting nodes, distributed key generation |
| `Polling` | following a transaction on a growing chain |
| `ConfigJson` | the configuration between JSON and the browser's editor |

Code that changes things step by step is a method, or a class with methods, proved against a function;
the laws are lemmas about those functions. A command that fails leaves an explicit `Outcome` with the
store as the code leaves it, because some commands write before their last check;
`Invariant.ApplyKeepsInv` then proves that on admissible transactions a rejection changes nothing.

## What is assumed

Every assumption is a visible `requires` of the lemmas that need it;
`Tally.Published` collects those of the tally. `Witness.AssumptionsTogether` shows that they hold
together of a run that publishes a result.

- The group has prime order q. `RecoverCommit` of the share library is interpolation at zero over
  x = index + 1 and fails on a negative index.
- `SoundProver`: a shuffle proof that verifies, for a list of the size of its input and the random vector
  that the contract derives, means that the output is a permutation and re-encryption of the input.
  `SizesKept`: accepted shuffles have the sizes of their inputs. The contract compares no sizes, so this is
  a condition of its own; honest shuffles meet it (`Shuffling.HonestProofVerifies`). `Complete`: the proof
  and signature of an honest node verify when it can make them, and random vectors have the length asked for.
- `HonestShares`: each submitted unit is the node's partial decryption under one key polynomial with at
  most threshold coefficients, whose value at zero belongs to the form's public key. `Nodes.KeyFitsForm`
  derives the bound from the key generation, `Nodes.HonestNode` and `Nodes.SharesNeverStale` the shares.
- `ValidThreshold`: the Byzantine threshold of n > 0 members lies between 1 and n.
- `NoCollision`: the stored forms' hashes differ in their first 28 bytes. Needed only between forms; the
  blocks of one form never collide (`Blocks.BlockIdsDiffer`).
- At most 2^32 casts on a form. Beyond that the block counter wraps and the first block is overwritten;
  `Blocks.WrapReusesFirstBlock` shows it.
- `Embeds`: any 29 bytes are the data of some point, and `Padding`: the browser's padding is ASCII of the length
  asked for. Needed only to show that honest ballots can be made; `Witness.EmbeddingPossible` shows a group with
  such points.
- `Admissible`: new forms get unused keys, and a decoded delete command carries no user, because its JSON
  form drops it.
- The store does not fail, its kinds of keys do not collide, and what is stored is read back unchanged.
- The roster, the key held by the DKG actor, the transactions earlier in the same block, and the fresh
  form key are inputs of a transaction. A form identifier is a decoded key; a malformed one is an unknown
  form. A panic of the contract counts as a rejection.

## Where the code and its documentation or intent part

The model follows the code.

- A rank answer must be below MaxN and at most 127; docs/ballot_encoding.md allows MaxN itself. A complete
  ranking of more than 128 choices is lost (`BallotFits.RankingLimit`).
- The minimum number of texts is checked on the raw answers, and a carriage return is a non-empty raw
  answer that decodes to nothing, so an accepted ballot can hold fewer texts than the minimum
  (`BallotReader.CarriageReturnBallot`; `BallotReader.TextBounds` says exactly when).
- A question identifier that is not Base64 is an error that keeps the rows of the lines before it
  (`BallotReader.ParserSound` says exactly when a failed ballot is empty, `BallotRoundTrip.OneRowKept` is one
  that is not).
- A form without questions has ballot size 0, which leaves no room even for the final newline
  (`BallotFits.SizeBound` is an if and only if, `BallotFits.EmptyFormOverflows` its failing input).
- Ballots are kept under the spelling of the voter identifier. "+123456" and "0123456" name the same
  SCIPER as "123456", so one registered voter can have several ballots counted
  (`Persons.SpellingsCoincide`). Conservation is therefore stated per identifier. Identifiers are people
  exactly when their canonical spellings, without one plus sign and then without leading zeros, differ:
  `Persons.SameSciper` for two identifiers, `Persons.RunPersons` for those of a run, and
  `Persons.OneBallotPerPerson` for the published tally; `Witness.OnePersonTwice` is a run that counts one
  person twice.
- Closing needs two casts, not two voters (`Lifecycle.CloseCountsCasts`; `Witness.OneVoterCloses` is a run
  that closes on one).
- The check against earlier transactions of the same block compares a command name with the name of the
  form argument. One shuffle per round follows from the round check instead
  (`Lifecycle.OneShufflePerRound`).
- Deleting a form is never accepted (`Invariant.DeleteNeverAccepted`). Its JSON form loses the user, so a
  decoded delete fails the role check and changes nothing. A delete by a listed owner removes the form and
  then tries to add the identifier to the metadata instead of removing it; that fails, because the identifier
  is still listed, and without a rollback the form is gone (`Witness.OwnerDeletes`).
- The contract compares no lengths before it checks a shuffle proof (contracts/evoting/evoting.go:423-457).
  Conservation needs that accepted shuffles keep their sizes, and proofs that are sound for lists of equal
  size do not give that (`Witness.SizesNeeded`).
- One ballot whose points carry no bytes keeps every other ballot unpublished
  (`Tally.CombineWhenLegible` is an if and only if).
- A configuration does not always come back from the editor: missing hints are filled in, elements with a
  repeated identifier in one subject are merged, and choices that are not aligned change or fail
  (`ConfigJson.ConfigRoundTrip` is an if and only if for every configuration).

## Model

| member | source | states |
|---|---|---|
| Tally.TallyConservation | contracts/evoting/evoting.go:254-764 | in every run that reaches ResultAvailable, with shuffles of the size of their inputs, the multiset of published ballots is the multiset of the voters' last accepted ballots, one for each voter identifier |
| Tally.FormConservation | contracts/evoting/evoting.go:717-751 | the same for one form, from its shuffle chain and its shares |
| EndToEnd.HonestVotersCounted | contracts/evoting/evoting.go:717-751 | the answers of any list of different honest voters are published with their multiplicity, and they are all that is published when everyone who cast a ballot is in the list |
| EndToEnd.HonestVoterCounted | contracts/evoting/evoting.go:717-751 | the answers of each honest voter are among the published ballots |
| EndToEnd.HonestVoterAccepted | contracts/evoting/evoting.go:254-307 | wherever a run leaves a form open, proper answers of a registered voter, cut into chunks of at most 29 characters, have an honest ballot that the contract accepts |
| EndToEnd.MakeBallot | web/frontend/src/pages/ballot/components/VoteEncode.tsx:5-70 | the chunks cut for proper answers are the least number of 29-byte chunks and can be encrypted into an honest ballot |
| EndToEnd.HonestBallotReadBack | web/frontend/src/pages/ballot/components/VoteEncrypt.tsx:4-21 | a ballot printed, padded, cut, and encrypted chunk by chunk opens under the secret key to exactly the answers |
| EndToEnd.ChunksReadBack | services/dkg/pedersen/mod.go:409-431 | decrypting every pair and joining the embedded bytes gives back the joined chunks |
| Tally.ShuffleKeepsPlaintexts | contracts/evoting/evoting.go:449-457 | an accepted shuffle keeps number, width and multiset of the plaintexts |
| Tally.ShufflesKeepPlaintexts | contracts/evoting/evoting.go:427-466 | any number of accepted rounds, each of the size of its input, keeps the plaintexts of the cast votes and their number of chunks |
| Tally.ChunkDecrypts | contracts/evoting/evoting.go:1228-1255 | with honest shares a recombined chunk is what the whole secret decrypts |
| Tally.RevealedIsPlain | contracts/evoting/evoting.go:717-751 | the published ballots are the parsed plaintexts of the last shuffled list, in order |
| Tally.CombineWhenLegible | contracts/evoting/evoting.go:686-764 | when all shares are in, the owner's command publishes exactly when the last ballot of every voter decrypts to points that carry bytes; one that does not blocks all |
| Tally.PublishableWhenLegible | contracts/evoting/evoting.go:717-751 | the same for one form, from its shuffle chain and its shares |
| ElGamal.ThresholdDecryption | services/dkg/pedersen/handler.go:447-461 | for every key polynomial and any that many distinct indexes, interpolating the partial values gives exactly C - f(0) K |
| ElGamal.EncryptThenDecrypt | services/dkg/pedersen/mod.go:424-427 | decryption undoes encryption under the matching key |
| ElGamal.ReencryptionKeepsPlaintext | services/shuffle/neff/handler.go:286-288 | blinding a pair again leaves its plaintext |
| Interpolation.InterpolationExact | contracts/evoting/evoting.go:1243-1246 | Lagrange weights at zero over distinct nodes recover f(0) for every f with at most that many coefficients |
| Runs.ReachableInv | contracts/evoting/mod.go:209-304 | the store invariant holds after every admissible run from the empty store |
| Runs.RunRecorded | contracts/evoting/mod.go:209-304 | in every run a form's blocks hold exactly its accepted casts, its shuffles are chained to them by proofs, and a published result is what its shares decrypt to |
| Runs.CastRecorded | contracts/evoting/evoting.go:254-307 | an accepted cast extends the recorded history by that cast |
| Runs.ShuffleRecorded | contracts/evoting/evoting.go:310-487 | an accepted shuffle was proved against its predecessor, in round 0 against the latest votes of the log |
| Runs.ForeignCastRecorded | contracts/evoting/types/election.go:212-265 | a cast on another form overwrites no block of this one |
| Runs.StepKeys | contracts/evoting/evoting.go:61-152 | only its creation makes a form appear, as a fresh form with empty history, and no form disappears |
| Runs.StepElsewhere | contracts/evoting/mod.go:209-304 | a transaction on another form leaves this form unchanged |
| Invariant.ApplyKeepsInv | contracts/evoting/mod.go:209-304 | every admissible command keeps the invariant, and a rejected one leaves the store as it was |
| Invariant.NextFormKeepsInv | contracts/evoting/evoting.go:191-807 | every accepted command on a form keeps its invariant |
| Invariant.ShuffledKeepsInv | contracts/evoting/evoting.go:459-474 | an accepted shuffle keeps shufflers distinct and in the roster, and ends the phase at the threshold |
| Invariant.RegisteredKeepsInv | contracts/evoting/evoting.go:628-675 | an accepted submission keeps the three share lists parallel, distinct and of the right shape |
| Invariant.RolesKeepInv | contracts/evoting/evoting.go:1005-1110 | role changes keep every list in SCIPER range and every form with an owner |
| Invariant.CreateKeepsInv | contracts/evoting/evoting.go:61-152 | creation succeeds exactly for an administrator with a valid configuration, and keeps the invariant |
| Invariant.AdminsKeepInv | contracts/evoting/evoting.go:851-928 | the administrator list stays non-empty and duplicate-free |
| Invariant.DeleteNeverAccepted | contracts/evoting/evoting.go:811-848 | a delete is never accepted; one by a listed owner removes the form and leaves its identifier listed, any other changes nothing |
| Lifecycle.FormOnlyAdvances | contracts/evoting/evoting.go:191-807 | between any two points of a run the phase does not fall, shuffles only grow, settings and key stay, ballots are frozen once closed, shuffles once shuffled, and canceled is absorbing |
| Lifecycle.PhaseBefore | contracts/evoting/evoting.go:191-764 | a form in a phase was earlier in the one before it, so a result passes through all phases in order |
| Lifecycle.StaleReadsHarmless | services/shuffle/neff/handler.go:93-114 | if the round a node worked on is still the expected one, the list it shuffled is the list the contract verifies against |
| Lifecycle.OneShufflePerRound | contracts/evoting/evoting.go:346-352 | after an accepted shuffle for a round, every later one for that round is rejected |
| Lifecycle.SingleVoterStaysClosed | contracts/evoting/evoting.go:443-445 | a form whose casts name one voter identifier never gets past Closed, other than by being canceled |
| Lifecycle.CloseCountsCasts | contracts/evoting/evoting.go:553-557 | an owner can close an open form exactly when it received at least two casts |
| Lifecycle.ShufflePhase | contracts/evoting/evoting.go:346-368 | in every reachable store shufflers are distinct roster members, their number never exceeds the threshold, is below it while Closed and equals it afterwards |
| Lifecycle.ShareBookkeeping | contracts/evoting/evoting.go:628-670 | in every reachable store the share lists are parallel, distinct and of the shape of the last shuffled list; at decryption there are exactly threshold units and no index is out of range |
| Lifecycle.IndexAndRoles | contracts/evoting/evoting.go:141-187 | in every reachable store the metadata names the stored forms and the administrator list exactly once, and neither administrators nor owners run out |
| Permissions.CastRule | contracts/evoting/evoting.go:254-307 | in a store that satisfies the invariant, a cast is accepted exactly from a person in the voter list of an open form, with as many chunks as 29-byte pieces of the ballot size; it changes nothing but where the form's ballots are |
| Permissions.CastAcceptedAt | contracts/evoting/evoting.go:254-307 | the same at every point of every run |
| Permissions.LoggedWhileRegistered | contracts/evoting/evoting.go:275-282 | every entry of a form's cast log was cast while the form was open and its person in the voter list |
| Permissions.ShuffleRule | contracts/evoting/evoting.go:310-487 | a shuffle, honest or not, is accepted exactly when it passes the checks of the code one by one, its signature included; it adds one instance and ends the phase at the threshold |
| Permissions.ShufflesSigned | contracts/evoting/evoting.go:370-394 | in every run, each recorded shuffle stems from an earlier transaction for that round that its shuffler, a roster member, signed over those ballots |
| Permissions.SharesRule | contracts/evoting/evoting.go:575-682 | shares, honest or not, are accepted exactly when they pass every check, the signature included; the three lists grow by one entry each |
| Permissions.SharesSigned | contracts/evoting/evoting.go:606-627 | in every run, each recorded unit of shares was signed by its node, a roster member, with its index |
| Permissions.OpenRule | contracts/evoting/evoting.go:191-251 | opening needs an owner, an initial form and a key; status and key change and nothing else |
| Permissions.CloseRule | contracts/evoting/evoting.go:523-571 | closing needs an owner, an open form and more than one cast |
| Permissions.CombineRule | contracts/evoting/evoting.go:686-764 | publishing needs an owner, all shares, and that every ballot decrypts |
| Permissions.CancelRule | contracts/evoting/evoting.go:768-807 | canceling needs an owner and nothing else |
| Permissions.CreateRule | contracts/evoting/evoting.go:61-152 | creating needs an administrator and a valid configuration; the new form is empty, with its creator as only owner and no voters |
| Permissions.RoleRule | contracts/evoting/evoting.go:1005-1110 | a role command is accepted exactly from an owner and for a person, a removal only of a listed one, and of an owner only when another entry remains; only the named list changes, by one entry of that person |
| Permissions.OwnersMade | contracts/evoting/evoting.go:1060-1083 | in every run, each owner is the creator or was added by someone who was an owner then |
| Permissions.VotersMade | contracts/evoting/evoting.go:1012-1033 | in every run, everyone in a voter list was added by someone who was an owner then |
| Permissions.AdminRule | contracts/evoting/evoting.go:851-928 | the first command creates the list for whoever it names; later ones need an administrator, add nobody twice and remove all but the last; only the list changes |
| Permissions.AdminsMade | contracts/evoting/evoting.go:851-928 | in every run, each administrator was named by the first command or added by someone who was an administrator then |
| Persons.OneBallotPerPerson | contracts/evoting/evoting.go:717-751 | a published tally has at least as many ballots as people who voted, and exactly as many if and only if the canonical spellings of the voter identifiers differ |
| Persons.RunPersons | contracts/evoting/evoting.go:254-307 | in any run the identifiers with an accepted cast name different SCIPERs exactly when their canonical spellings differ |
| Persons.SameSciper | contracts/evoting/types/suffragia.go:39-49 | two accepted identifiers name the same SCIPER exactly when their canonical spellings agree |
| Persons.SciperSpelling | contracts/evoting/types/election.go:512-523 | an identifier names the SCIPER n exactly when n is in range and the identifier, without one plus sign and then without leading zeros, is the decimal number n |
| Persons.LogNamed | contracts/evoting/evoting.go:254-307 | every accepted cast of a run names a SCIPER |
| Persons.SixCharacters | contracts/evoting/types/election.go:512-523 | a six-character identifier that names a SCIPER is its decimal number |
| Persons.SpellingsCoincide | contracts/evoting/types/suffragia.go:39-49 | a plus sign or a zero in front gives a different identifier for the same SCIPER |
| Persons.SixCharactersInjective | contracts/evoting/types/suffragia.go:39-49 | among six-character identifiers, different identifiers are different people; a special case of the condition on canonical spellings |
| Contract.EvotingContract.Execute | contracts/evoting/mod.go:209-304 | without access, or without a known command whose argument decodes, nothing happens; otherwise the new store and verdict are those of `Apply`; the store stays valid and a rejection changes nothing |
| Contract.EvotingContract.Dispatch | contracts/evoting/mod.go:224-301 | every decoded command reaches the method that does what `Apply` says |
| Contract.EvotingContract.CreateForm | contracts/evoting/evoting.go:61-152 | does exactly what `Apply` says, rejections and partial writes included |
| Contract.EvotingContract.UpdateFormMetadataStore | contracts/evoting/evoting.go:155-187 | adds the identifier, or fails when it is listed |
| Contract.EvotingContract.OpenForm | contracts/evoting/evoting.go:191-251 | opens an initial form for an owner with the key of the DKG actor, exactly as `Apply` says |
| Contract.EvotingContract.CastVote | contracts/evoting/evoting.go:254-307 | stores the ballot exactly as `Apply` says, which `Permissions.CastRule` spells out: from a registered voter, on an open form, with the right number of chunks |
| Contract.EvotingContract.StoreVote | contracts/evoting/types/election.go:212-265 | writes the current or a fresh block and the index, nothing else |
| Contract.EvotingContract.ShuffleBallots | contracts/evoting/evoting.go:310-487 | appends the shuffle and moves on at the threshold, exactly as `Apply` says, which `Permissions.ShuffleRule` spells out |
| Contract.EvotingContract.CheckShuffle | contracts/evoting/evoting.go:332-457 | accepts exactly the shuffles that pass `Permissions.ShuffleChecks`, the signature included (`Permissions.ChecksAreAll`) |
| Contract.EvotingContract.VerifyShuffle | contracts/evoting/evoting.go:427-457 | checks the proof on the transposed lists of input and output |
| Contract.EvotingContract.GetShuffleInput | contracts/evoting/evoting.go:429-441 | the merged votes in round 0, the last shuffled list afterwards |
| Contract.EvotingContract.HasShuffled | contracts/evoting/evoting.go:363-368 | finds whether the node already shuffled this form |
| Contract.EvotingContract.CheckPreviousTransactions | contracts/evoting/evoting.go:491-520 | refuses exactly when an earlier transaction of the block has the contract's name and the name of the form argument as its command |
| Contract.EvotingContract.CloseForm | contracts/evoting/evoting.go:523-571 | closes an open form for an owner after more than one cast, exactly as `Apply` says |
| Contract.EvotingContract.RegisterPubshares | contracts/evoting/evoting.go:575-682 | appends the unit, key and index and moves on at the threshold, exactly when `SharesAllowed` |
| Contract.EvotingContract.CheckShares | contracts/evoting/evoting.go:591-655 | accepts exactly the submissions that `SharesAllowed` describes and `Permissions.SharesRule` spells out |
| Contract.EvotingContract.FirstSubmission | contracts/evoting/evoting.go:637-655 | the node has not submitted and its index is free |
| Contract.EvotingContract.CombineShares | contracts/evoting/evoting.go:686-764 | publishes the decrypted ballots for an owner, or fails when a chunk cannot be recovered, exactly as `Apply` says |
| Contract.EvotingContract.CancelForm | contracts/evoting/evoting.go:768-807 | cancels in any phase for an owner, exactly as `Apply` says |
| Contract.EvotingContract.DeleteForm | contracts/evoting/evoting.go:811-848 | removes the form and then adds its identifier to the metadata, exactly as `Apply` says |
| Contract.EvotingContract.ManageAdminList | contracts/evoting/evoting.go:851-928 | creates or changes the administrator list exactly as `Apply` says, which `Permissions.AdminRule` spells out |
| Contract.EvotingContract.ManageOwnersVotersForm | contracts/evoting/evoting.go:1005-1110 | changes the voters or owners of a form exactly as `Apply` says, which `Permissions.RoleRule` spells out |
| Contract.EvotingContract.FetchAdmin | contracts/evoting/evoting.go:955-972 | tells administrators from others, and both from a missing list or malformed identifier |
| Contract.GetIndex | contracts/evoting/types/admin.go:66-79 | the first position of the user's SCIPER, -1 when absent, an error for a malformed identifier |
| Contract.IsRole | contracts/evoting/evoting.go:931-952 | true exactly for a well-formed identifier in the list |
| Contract.RemoveUser | contracts/evoting/types/election.go:449-461 | the list without the first occurrence, an error when there is none |
| Ledger.RemoveFirstRemoves | contracts/evoting/types/election.go:449-461 | removal drops exactly one occurrence, so a duplicate stays |
| Contract.Contains | contracts/evoting/types/transactions.go:33-41 | the first position of the identifier, or -1 exactly when it is absent |
| Contract.IsMemberOf | contracts/evoting/evoting.go:1114-1134 | true exactly for keys of the roster |
| Contract.CiphervotesToPairs | contracts/evoting/types/ciphervote.go:138-155 | the transposition: row j holds the j-th point of every ballot |
| Contract.HasShape | contracts/evoting/evoting.go:623-635 | one row for each ballot and one share for each pair |
| Contract.Decrypt | contracts/evoting/evoting.go:1228-1255 | one chunk: all units' shares at one pair, recombined and read as bytes |
| Contract.DecryptBallot | contracts/evoting/evoting.go:726-739 | one ballot: its chunks in order, or failure at the first bad one |
| Contract.DecryptAll | contracts/evoting/evoting.go:717-751 | all ballots in order, a ballot that does not parse kept as the parser left it |
| Suffragia.CastVote | contracts/evoting/types/suffragia.go:39-49 | overwrites the voter's ballot in place or appends |
| Suffragia.LatestVotesCorrect | contracts/evoting/types/suffragia.go:39-49 | after any casts every voter is listed once, with the ballot of the last cast |
| Suffragia.CastsCommute | contracts/evoting/types/suffragia.go:39-49 | updating a listed voter commutes with a cast of anyone else |
| Suffragia.MergeIsReplay | contracts/evoting/types/election.go:271-290 | merging a block's list equals replaying every cast that made the block |
| Blocks.BlocksRefineLog | contracts/evoting/types/election.go:271-290 | reading the blocks equals folding the whole cast log, ballots and voter order alike, even when a voter's casts lie in different blocks |
| Blocks.ReadSuffragia | contracts/evoting/types/election.go:271-290 | merges the blocks in order, or fails at a missing one |
| Blocks.CastKeepsLog | contracts/evoting/types/election.go:212-265 | a cast keeps the layout: as many blocks as hundreds, each full but the last, none overwritten |
| Blocks.HundredEach | contracts/evoting/types/election.go:212-290 | one block for every started hundred of casts, each but the last with the latest votes of exactly its own 100 |
| Blocks.BlockIdBytes | contracts/evoting/types/election.go:223-234 | a block identifier is the count, lowest byte first, and 28 bytes of the form's hash |
| Blocks.BlockIdsDiffer | contracts/evoting/types/election.go:215-234 | block identifiers of one form differ, without any assumption on the hash |
| Blocks.ForeignBlocksDiffer | contracts/evoting/types/election.go:215-234 | block identifiers of two forms differ when 28 bytes of their hashes do |
| Blocks.LittleEndianInjective | contracts/evoting/types/election.go:223-226 | the four counter bytes determine the counter below 2^32 |
| Blocks.WrapReusesFirstBlock | contracts/evoting/types/election.go:263-263 | cast number 2^32 empties and reuses the first block |
| Configuration.IsValid | contracts/evoting/types/election.go:373-384 | true exactly for a configuration with distinct identifiers in the whole tree, coherent questions, and every Order entry met by the end of its subtree |
| Configuration.IsValidSubject | contracts/evoting/types/ballots.go:386-443 | the recursive check over the shared map is exact for the declarative meaning |
| Configuration.CollectOwn | contracts/evoting/types/ballots.go:386-424 | the map-size test detects exactly the duplicates |
| Configuration.CollectIds | contracts/evoting/types/ballots.go:392-417 | collects the identifiers of one kind of question and stops at an incoherent one |
| Configuration.ValidSubjectUnfold | contracts/evoting/types/ballots.go:386-443 | validity of a subject, taken apart as the validator visits it |
| Configuration.ValidExactly | contracts/evoting/types/ballots.go:386-443 | a configuration is valid exactly when no identifier occurs twice in the whole tree, MinN <= MaxN <= number of choices for every question, and every Order entry has been met |
| Configuration.OrdersKnown | contracts/evoting/types/ballots.go:427-443 | in a valid configuration every Order entry of every subject is an identifier of the tree |
| Configuration.GetQuestionUnique | contracts/evoting/types/election.go:359-369 | in a valid configuration a question is found exactly when it is in the tree |
| Configuration.FindFlattensForest | contracts/evoting/types/ballots.go:296-323 | the recursive search is a linear search of the flattened questions |
| Configuration.MaxEncodedSize | contracts/evoting/types/ballots.go:327-382 | the counter through four loops computes the size of the tree |
| Configuration.MaxBallotSize | contracts/evoting/types/election.go:349-355 | the sum over the scaffold |
| Configuration.ChunksPerBallot | contracts/evoting/types/election.go:203-209 | the least number of 29-byte chunks that hold the ballot |
| BallotReader.Ballot.Unmarshal | contracts/evoting/types/ballots.go:46-149 | fields and error report are those of reading line by line up to the first blank line |
| BallotReader.Ballot.UnmarshalLine | contracts/evoting/types/ballots.go:60-145 | one line appends its row, or fails and clears the ballot, or fails without clearing it |
| BallotReader.Ballot.Invalidate | contracts/evoting/types/ballots.go:164-171 | all six lists become empty |
| BallotReader.UnmarshalSelect | contracts/evoting/types/ballots.go:484-514 | one boolean for each choice, within the bounds, or an error |
| BallotReader.UnmarshalRank | contracts/evoting/types/ballots.go:550-587 | blank is -1, other ranks lie in [0, MaxN) and fit a signed byte, within the bounds, or an error |
| BallotReader.UnmarshalText | contracts/evoting/types/ballots.go:625-653 | decoded texts, the bounds taken on the raw answers, or an error |
| BallotReader.ParserSound | contracts/evoting/types/ballots.go:46-171 | for every string: success means a sound ballot with one row a line, with text counts in [MinN, MaxN] wherever no raw answer is made of line breaks only; after a failure the ballot is empty exactly when the failing line is invalid or the first one, and otherwise it holds one row for each line before |
| BallotReader.TextBounds | contracts/evoting/types/ballots.go:625-653 | in an accepted ballot every text row keeps to the maximum, and it meets the minimum exactly when its raw answers less the skipped ones do |
| BallotReader.ReadLinesSound | contracts/evoting/types/ballots.go:60-145 | the line at which reading stops; an undecodable identifier leaves the sound rows of all lines before it |
| BallotReader.ReadableExactly | contracts/evoting/types/ballots.go:60-145 | a line is read exactly when it has three fields, a Base64 identifier of a question, and fitting answers of the kind it names |
| BallotReader.DecodedCounts | contracts/evoting/types/ballots.go:625-653 | non-empty texts are the non-empty raw answers less those made of line breaks |
| BallotReader.TextMinimum | contracts/evoting/types/ballots.go:153-161 | an accepted text row meets the minimum exactly when the raw answers less the skipped ones do |
| BallotReader.CarriageReturnAnswers | contracts/evoting/types/ballots.go:625-653 | one carriage return is accepted where one text is required |
| BallotReader.CarriageReturnBallot | contracts/evoting/types/ballots.go:46-149 | a concrete ballot that answers a required text with a carriage return is accepted with an empty text |
| BallotWriter.VoteEncode | web/frontend/src/pages/ballot/components/VoteEncode.tsx:5-70 | the chunks of the padded ballot, or failure exactly when it does not fit |
| BallotWriter.EncodeEntry | web/frontend/src/pages/ballot/components/VoteEncode.tsx:13-37 | appends one line, its trailing comma replaced by the newline |
| BallotWriter.PrintPositions | web/frontend/src/pages/ballot/components/VoteEncode.tsx:20-29 | prints the filled slots of the position array |
| BallotWriter.CutIsLine | web/frontend/src/pages/ballot/components/VoteEncode.tsx:13-37 | dropping the last character leaves the line; without answers it drops the second colon |
| BallotWriter.Cut | web/frontend/src/pages/ballot/components/VoteEncode.tsx:51-69 | the chunks have at most 29 characters and join to the string |
| BallotWriter.HandleOnDragEnd | web/frontend/src/pages/ballot/components/Rank.tsx:8-28 | moves one item, keeps the order of the others, and keeps a ranking a permutation; a drag without destination changes nothing |
| BallotWriter.DragsKeepRanking | web/frontend/src/types/JSONparser.ts:116-124 | after any sequence of drags from the initial ranking the ranking is a permutation, as the round trip needs it |
| BallotRoundTrip.RoundTrip | contracts/evoting/types/ballots.go:46-149 | for every padding, reading the printed answers succeeds exactly when every answer is acceptable, and gives the same selections and texts and the inverse rankings; otherwise the ballot is empty |
| BallotRoundTrip.LineRoundTrip | web/frontend/src/pages/ballot/components/VoteEncode.tsx:13-37 | reading a printed line gives exactly the judgement of its answers |
| BallotRoundTrip.PrintedLines | web/frontend/src/pages/ballot/components/VoteEncode.tsx:13-37 | one printed line of each kind, character by character |
| BallotRoundTrip.PositionsOfRanking | web/frontend/src/pages/ballot/components/VoteEncode.tsx:22-26 | the position array of a permutation is its inverse |
| BallotRoundTrip.JudgeAccepted | contracts/evoting/types/ballots.go:46-149 | acceptable answers are recorded kind by kind, in map order |
| BallotRoundTrip.UndecodableKeeps | contracts/evoting/types/ballots.go:71-74 | any acceptable answers followed by a line with an undecodable identifier: an error, and every answer is kept |
| BallotRoundTrip.OneRowKept | contracts/evoting/types/ballots.go:71-74 | a concrete ballot of two lines is refused and keeps its first row |
| BallotFits.SizeBound | contracts/evoting/types/ballots.go:327-382 | the printed answers fit the ballot size exactly when the configuration has a question |
| BallotFits.PaddedFits | web/frontend/src/pages/ballot/components/VoteEncode.tsx:39-67 | the padded ballot has exactly the ballot size and fits the chunks, so encoding never throws |
| BallotFits.ForestRoom | contracts/evoting/types/ballots.go:327-382 | the size of a tree covers all its questions and one byte more |
| BallotFits.SizeExact | contracts/evoting/types/ballots.go:327-382 | the ballot size in closed form: the share of each question by kind, and one byte for every subject with a question below it |
| BallotFits.AnsweredAccepted | contracts/evoting/types/ballots.go:46-149 | in a valid configuration, answers of the right shape are accepted exactly when they respect each question |
| BallotFits.BallotReadBack | contracts/evoting/types/ballots.go:46-149 | in a valid configuration the padded ballot of any answers is read back exactly when they respect the questions |
| BallotFits.RankingLimit | contracts/evoting/types/ballots.go:568-577 | a complete ranking of n choices, as many as the question asks for, is read back exactly up to n = 128 |
| BallotFits.LongRankingLost | contracts/evoting/types/ballots.go:568-577 | a complete ranking of 129 choices is lost |
| BallotFits.EmptyFormOverflows | web/frontend/src/pages/ballot/components/VoteEncode.tsx:39-47 | the ballot of a form without subjects has one character and its ballot size is 0 |
| Text.Base64RoundTrip | contracts/evoting/types/ballots.go:71-71 | decoding the encoding of any bytes gives them back |
| Text.EncodedShape | contracts/evoting/types/ballots.go:335-338 | the encoding has four characters for every started group of three bytes, and no separator |
| Text.DecodedExactly | contracts/evoting/types/ballots.go:71-71 | a string is decoded exactly when, without its line breaks, it is whole groups of four of the alphabet with at most two padding characters at the end; its bytes then encode to it but for the unused bits before the padding |
| Text.StrippedParts | contracts/evoting/types/ballots.go:71-71 | exactly carriage returns and line feeds are dropped before decoding |
| Text.SextetAlphabet | contracts/evoting/types/ballots.go:71-71 | the 64 characters of Base64, in order |
| Text.Base64Vectors | contracts/evoting/types/ballots.go:71-71 | the first four examples of section 10 of RFC 4648 |
| Text.SplitJoin | contracts/evoting/types/ballots.go:46-60 | splitting a join gives the parts back |
| Text.ParseDecimal | contracts/evoting/types/ballots.go:568-571 | parsing a printed number gives it back |
| Text.Utf8RoundTrip | web/frontend/src/pages/ballot/components/VoteEncode.tsx:31-37 | decoding the UTF-8 bytes of a text (section 3 of RFC 3629) gives it back exactly when every surrogate is paired; lone surrogates come back as U+FFFD |
| Text.Utf8Vectors | web/frontend/src/pages/ballot/components/VoteEncode.tsx:31-37 | one character of each length from one to four bytes, byte by byte |
| Shuffling.AcceptedWhenRaceOpen | services/shuffle/neff/handler.go:84-150 | however stale its reads, a transaction that an honest node could make of a closed form is accepted exactly when its round is still open, the node may take part, and there are two ballots |
| Shuffling.HonestProofVerifies | services/shuffle/neff/handler.go:152-253 | what an honest node made of its input has the size of the input and passes the contract's proof check on it |
| Shuffling.HandleStartShuffle | services/shuffle/neff/handler.go:84-150 | the retry loop submits one transaction a turn, each made from that turn's reads of a closed form below the threshold; every turn but the last was denied, and the loop ends exactly on enough shuffles, own acceptance, or a failure to read, make, submit or sync |
| Shuffling.MakeTx | services/shuffle/neff/handler.go:152-253 | round, vector, proof and signature belong to the ballots read and shuffled; without a transaction, the manager failed, the ballots cannot be read or transposed, or the shuffled list gets no vector, proof or signature |
| Shuffling.GetShuffledBallots | services/shuffle/neff/handler.go:256-298 | the shuffled rows of the votes cast or of the last list, turned back into ballots |
| Nodes.CiphervotesFromPairs | contracts/evoting/types/suffragia.go:67-99 | the ballots under the first row's columns, longer rows cut; an error for no rows, unequal lists or a row too short |
| Nodes.RowsDetermineBallots | contracts/evoting/types/ciphervote.go:138-155 | the rows of a uniform list determine it, so ballots to rows and back is the identity |
| Nodes.Equal | contracts/evoting/types/ciphervote.go:83-95 | true exactly for equal ballots |
| Nodes.PublicShares | services/dkg/pedersen/handler.go:443-461 | one partial decryption for every pair of every ballot |
| Nodes.HonestNode | services/dkg/pedersen/handler.go:443-461 | a node that holds its point of the key polynomial makes an honest unit of an acceptable shape |
| Nodes.SharesNeverStale | services/dkg/pedersen/handler.go:437-520 | shares computed once are accepted at any later point exactly while shares are collected and neither the node nor its index has submitted, and stay honest for the ballots that are decrypted |
| Nodes.KeyFitsForm | services/dkg/pedersen/handler.go:246-251 | key generation for a form's roster takes the contract's threshold, so the key polynomial has exactly as many coefficients as the contract combines shares |
| Dkg.EveryInterleaving | services/dkg/pedersen/handler.go:141-203 | in every interleaving with one start, deals taken and queued are the deals received in order, likewise responses, and the key appears only after n-1 deals and certification |
| Dkg.KeyFromFirstDeals | services/dkg/pedersen/handler.go:264-306 | the key is computed from the first n-1 deals received, in order of arrival |
| Dkg.StartedThreshold | services/dkg/pedersen/handler.go:246-253 | in every interleaving a started node works with the participants of the start message and the threshold of their number |
| Dkg.AllReceived | services/dkg/pedersen/handler.go:141-203 | in every undisturbed interleaving the node has received exactly the deals and responses sent, in order |
| Dkg.EnoughTurnsFinish | services/dkg/pedersen/handler.go:264-306 | in any order of arrival, after one start, n-1 deals, responses of which a prefix certifies, and n+m+5 worker turns, the node is certified and holds the key of the first n-1 deals and the shortest certifying prefix of responses |
| Dkg.DecryptNeedsKey | services/dkg/pedersen/handler.go:141-203 | in every interleaving with one start, a decrypt request is served exactly when the worker ended with a key and the shares can be submitted, and nothing is received after it |
| Dkg.ClosedForGood | services/dkg/pedersen/handler.go:141-203 | after an error, or a decrypt request, nothing is received any more |
| Dkg.Handler.Receive | services/dkg/pedersen/handler.go:141-203 | one message changes the shared lists as `Step` says, key and decrypt requests included; an error ends the loop, and so does a decrypt request, which needs a distributed key |
| Dkg.Handler.WorkOnce | services/dkg/pedersen/handler.go:264-306 | one turn of the worker changes lists and status as `Step` says, with which `Dkg.EnoughTurnsFinish` reaches the key; without a key share the status stays certified |
| Dkg.Handler.constructor | services/dkg/pedersen/handler.go:117-145 | both lists start empty |
| Dkg.Actor.RunSetup | services/dkg/pedersen/mod.go:233-371 | a start message exactly when everything before it succeeds and all keys arrive, pairing each address with its key; a distributed key exactly when it is sent and all nodes then report the same one; otherwise the status is failed; success also needs the key stored |
| Witness.AssumptionsTogether | contracts/evoting/evoting.go:254-764 | all assumptions of the tally and of an honest node hold together of a concrete run that publishes the two ballots cast |
| Witness.EmbeddingPossible | services/dkg/pedersen/mod.go:409-431 | there is a group of prime order whose points hold any 29 bytes |
| Witness.OneVoterCloses | contracts/evoting/evoting.go:553-557 | a concrete run closes a form on two casts of one voter |
| Witness.OwnerDeletes | contracts/evoting/evoting.go:811-848 | a concrete run after which the owner's delete is refused, the form is gone and its identifier still listed |
| Witness.OnePersonTwice | contracts/evoting/types/suffragia.go:39-49 | a concrete run publishes two ballots of one registered person under two spellings |
| Witness.SizesNeeded | contracts/evoting/evoting.go:423-457 | concrete runs publish any number of ballots for two voters: under all other assumptions of the tally the sizes of shuffles are not kept by the contract's checks |
| Polling.PollingIsScan | proxy/txnmanager/transaction.go:119-123 | over any growing chain every poll that resumes from the last token gives the answer of a full scan from the submission block |
| Polling.NothingSkipped | proxy/txnmanager/transaction.go:173-208 | a submitted transaction is reported as soon as it is anywhere on the chain |
| Polling.StatusMeans | proxy/txnmanager/transaction.go:173-208 | Included is answered exactly when the first result of the transaction says accepted, Rejected exactly when it says otherwise, with the block of that result |
| Polling.PollMeans | proxy/txnmanager/transaction.go:119-123 | the same for every poll of a growing chain |
| Polling.CheckTxnIncluded | proxy/txnmanager/transaction.go:173-208 | the walk ends with the first block that holds the transaction, or with the last block |
| Polling.ScanUnique | proxy/txnmanager/transaction.go:173-208 | the answer of a scan is determined by the chain and the start |
| Polling.Manager.SubmitTxn | proxy/txnmanager/transaction.go:212-236 | adds the transaction to the pool and starts from the last block, or fails and leaves the pool when the transaction cannot be made, there is no block, or the pool refuses |
| ConfigJson.ConfigRoundTrip | web/frontend/src/types/JSONparser.ts:154-235 | for every configuration: it comes back unchanged exactly when identifiers are unique within each subject, choices are aligned and no hint is missing; with missing hints only, they are filled in |
| ConfigJson.SubjectOriginal | web/frontend/src/types/JSONparser.ts:70-223 | a subject that comes back unchanged has unique identifiers, aligned choices and all hints, at every depth |
| ConfigJson.SubjectComesBack | web/frontend/src/types/JSONparser.ts:70-223 | a subject with unique identifiers and aligned choices comes back at every depth, with missing hints filled in |
| ConfigJson.FilledHint | web/frontend/src/types/JSONparser.ts:16-68 | a missing hint becomes three empty texts, and no other field changes |
| ConfigJson.FilledSubjects | web/frontend/src/types/JSONparser.ts:70-98 | at every depth, what comes back with hints filled in differs in its hints only |
| ConfigJson.ChoicesSurvive | web/frontend/src/types/getObjectType.ts:122-157 | aligned choices survive the conversion to lists by language and back |
| ConfigJson.SurvivingAligned | web/frontend/src/types/getObjectType.ts:122-157 | only aligned choices do |
| ConfigJson.ChoicesToChoicesMap | web/frontend/src/types/getObjectType.ts:122-139 | for every language the texts of the choices that have it, and all links |
| ConfigJson.ChoicesMapToChoices | web/frontend/src/types/getObjectType.ts:141-157 | as many choices as English texts, each with its non-empty texts; an error without English |
| ConfigJson.PutAllDistinct | web/frontend/src/types/JSONparser.ts:70-98 | without duplicate identifiers the element map is the list of insertions |
| ConfigJson.PutAllSize | web/frontend/src/types/JSONparser.ts:70-98 | the element map has as many elements as insertions only without duplicate identifiers |
| ConfigJson.LastInsertionWins | web/frontend/src/types/JSONparser.ts:70-98 | for any insertions, duplicates included: every identifier is there once, with what was inserted last under it |
| ConfigJson.PutMeans | web/frontend/src/types/JSONparser.ts:70-98 | an insertion replaces its identifier's entry in place or goes to the end |
| ConfigJson.ElementOrder | web/frontend/src/types/JSONparser.ts:70-98 | without duplicates the elements are the sub-subjects, rankings, texts and selections in this order, each with the object it came from |
| ConfigJson.ReadSubject | web/frontend/src/types/JSONparser.ts:70-98 | recursion and insertion order of the elements |
| ConfigJson.WriteSubject | web/frontend/src/types/JSONparser.ts:203-223 | the elements sorted by kind in map order, at every depth |
| ConfigJson.ReadConfig | web/frontend/src/types/JSONparser.ts:154-164 | reads every subject of the scaffold |
| ConfigJson.WriteConfig | web/frontend/src/types/JSONparser.ts:225-235 | writes every subject of the scaffold |

## Left out

- The HTTP proxies, the web backend, command line, controllers, metrics and tracing: wiring.
- React pages and components other than the printing, encryption and drag functions above: user interface.
- The inside of kyber, BLS, SHA-256, the Neff proofs and the Pedersen library: functions of the environment with the stated assumptions.
- JSON byte formats and the form and suffragia codecs: field copying, taken as a round trip, but for the lost user of a delete.
- The test mode that fills a form with ballots, and the suffragia hashes, which stay empty.
- Token age, time stamps, token hash and signature of the polling proxy.
- Counting and grouping of the published results in the browser.
- Timeouts and liveness of the retry loops: safety only. Loops over an unbounded environment take its answers as inputs.
- Failures of the store. Those of the transaction manager, pool, prover, signer and network are inputs of the shuffle loop, the submission and the setup; the loop that submits decryption shares is left to `Nodes.SharesNeverStale`.
- Overflow of the machine integers that hold sizes: unbounded here, except the 32-bit cast counter and 8-bit ranks.
- Titles, regular expressions and other display data of the contract's configuration.
- `FormIDs.Remove`: no command calls it.
- A second start of the key generation on one node: the interleaving theorem needs a single start.
- The random vector is kept in the modelled shuffle instance so that the history can restate the proof; the contract checks it and does not store it.
- Aliasing between the parsed JSON and the editor's objects, into which the browser writes missing hints: configurations are values.
- A loaded form is a value and the store is what changes, as the contract reads and writes forms by key.
- Contract.EvotingContract.Execute: requires fresh form keys and decoded deletes, as the chain delivers them; the single commands have no such requirement. Whether access is granted and whether the arguments decode are inputs.
- Tally.TallyConservation: counts voter identifiers, because the code keys ballots by spelling (`Persons.OneBallotPerPerson` is the count of people), and needs at most 2^32 casts, because the counter wraps.
- Polling.CheckTxnIncluded: a block whose index is not its position on the chain is not modelled.
- Contract.EvotingContract.constructor: the empty store that the runs start from; the services and factories that the source wires are inputs or left out.
- Sending deals, responses and the final acknowledgement, and saving a node's state afterwards: their failures are only logged.
