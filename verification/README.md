# Verified models of bcbchain's state logic

This project models the parts of bcbchain that keep money and state consistent, and
proves what they promise for every input, run or reachable state. `dafny verify
dfyconfig.toml` checks everything.

| files | what they model |
|---|---|
| `BybLots`, `BybPayment`, `BybLedger`, `BybInvariant`, `BybTheorems`, `BybCalls`, `BybExclusive`, `BybToken` | the BYB contract: accounts hold lots of chromos, payments are split over the lots in proportion, roles restrict who may hold which chromo |
| `StateStore`, `StateHistory`, `StateRuns`, `StateDb` | the versioned state store with its undo log in a second database |
| `BufferBytes`, `BlockLayers`, `BlockStore` | write buffers as bytes; transaction buffers over the block over the database; account nonces |
| `CallGraph`, `CallCycle` | the call-cycle checker of contract inspection |
| `ContractWindows`, `SystemContract` | contract versions over [effect, lose) height windows |
| `RewardStrategies`, `RewardPercents`, `RewardChecks`, `GasPayment`, `ValidatorPower`, `FeeDistribution`, `Mining` | reward strategies, gas payment, validator power, fee distribution, block rewards |
| `Sums` | sums over maps |

Stateful code is modelled by classes and loops whose contracts equate the new state
with a specification function of the old one; the theorems are about those functions.
A method that returns an error or panics has its writes undone with the surrounding
transaction, unless a row says otherwise (a state-store panic keeps what was written).
Big numbers are unbounded integers; uint64 and int64 arithmetic wraps where the code
lets it. Stored JSON is its value; transaction IDs and nonces are stored as decimal
text. A chromo is the number its decimal text denotes. Log lines, receipts, low-level
database errors and the clock are not modelled.

## Where the code departs from what it promises

- **One stockholder per chromo fails for white.** A black hole's `TransferByChromo` to
  a stockholder delivers white lots (tokenbyb.go:1015), after the role check looked at
  the chromo that was asked for. Two stockholders can then hold white, and
  `ChangeChromoOwnership` appends a second white lot to one list, against its comment.
  `WhiteTwiceIsReachable` gives the run; a call breaks the property exactly if it brings
  white to a second stockholder (`ExclusiveIff`), and a run keeps it exactly if no call
  does (`ExclusiveRunIff`); coloured chromos are always safe.
- **A buffer can make its commit impossible to undo**: an empty one, or one that writes
  the bookkeeping key with another text than the commit stores there (`OneCommitUndone`,
  `RollbackIff`). A rollback over such a commit panics, and if newer commits were undone
  before it is met it leaves the two databases disagreeing (`FailedRollback` says exactly
  when, `HalfWayIsReachable` gives a run).
- **Rollback leaves the in-memory counter behind**, so commits panic until the store is
  reopened (`RollbackNeedsReopening`, `CommitPanicsAfterRollback`).
- **A deletion is invisible to the transaction that made it** (`ReadBackIff`,
  `DeletionUnseen`).
- **Methods that share receiver variable and function name share a key**, and the calls
  of the first are forgotten. For given functions "no report means no cycle" holds for
  all bodies exactly if no function is followed by one of its key and, after that, by one
  of another name (`SilenceIsSoundIff`); `SharedKeyHidesCycle` gives the bodies.
- **Whether a contract can be upgraded depends on its address**: the check that the name
  is not forbidden looks at the version with the greatest address (`ForbiddenIff`);
  a deployment is the name's last exactly if an older version has a greater address
  (`LastDeploymentIff`, `BarredForGood`), as with "b" and then "a"
  (`ThirdVersionForbidden`).
- **Rewarders that share an address lose the earlier shares** (`RepeatedPayeeLoses`); a
  payment conserves exactly if every share overwritten is 0 (`PaymentConservesIff`).
- **A percentage without a point is paid at a tenth or less of its face value**: "20"
  pays 0.2 percent, and the proposer takes the rest (`PartIffPoint`, `PointlessUnderpays`).
- **A percentage that is no number passes the check of a strategy** as 0, and then no
  payment succeeds (`BlocksAllIff`, `NoNumberBlocks`).
- **The last rewarder does not take the rest of a fee**; the branch meant for it is
  never taken, and dust is lost unless every share is whole (`DustBound`, `OneUnitIsLost`).
- **Fees of one payer in several tokens are charged in the token of the last**
  (`TokenKeptIff`, `TwoTokens`).
- **Mining halves once too often** exactly when the first height is a multiple of the
  interval (`HalvingClosedForm`, `HalvingPromisedIff`).

## Model

| member | source | states |
|---|---|---|
| `BybLots.CalcTransfer` | abciapp_v1.0/contract/tokenbyb/tokenbyb.go:770-823 | the proportional loop computes the round `Split`, including the early InvalidBalance return |
| `BybLots.CalcTotal` | abciapp_v1.0/contract/tokenbyb/tokenbyb.go:407-414 | the loop returns the amount held in all lots |
| `BybLots.SplitBounds` | abciapp_v1.0/contract/tokenbyb/tokenbyb.go:778-821 | on non-negative lots a round never fails, never overspends, and keeps and pays only positive lots |
| `BybLots.NextShare` | abciapp_v1.0/contract/tokenbyb/tokenbyb.go:778-821 | a lot's share is at least 1 and at most what is left to pay, beyond 1 no more than exact proportion, and short of what is left less than a unit below it; the lot loses and the payee gets the share |
| `BybLots.RoundIsProportional` | abciapp_v1.0/contract/tokenbyb/tokenbyb.go:770-823 | a round takes of every chromo its proportion, less at most a unit for each lot and at most one more |
| `BybLots.SplitBalances` | abciapp_v1.0/contract/tokenbyb/tokenbyb.go:778-821 | in every chromo, lots kept plus lots paid equal the lots there were; the running total is the sum paid |
| `BybLots.SplitChromos` | abciapp_v1.0/contract/tokenbyb/tokenbyb.go:778-821 | kept and paid lots list no chromo twice; an unfinished round has paid something of every chromo it keeps |
| `BybLots.ShortfallBound` | abciapp_v1.0/contract/tokenbyb/tokenbyb.go:795-808 | while unfinished, a round is behind exact proportion by less than one unit for each lot that keeps something |
| `BybLots.EveryLotPays` | abciapp_v1.0/contract/tokenbyb/tokenbyb.go:804-809 | a round on positive lots finishes or pays at least one unit per lot |
| `BybLots.TwoRoundsSuffice` | abciapp_v1.0/contract/tokenbyb/tokenbyb.go:715-751 | for all non-negative lots and 0 < value < total the second round leaves no surplus |
| `BybPayment.CreditPayee` | abciapp_v1.0/contract/tokenbyb/tokenbyb.go:828-873 | the nested loops compute the merged list `Credit` |
| `BybPayment.CreditHeld` | abciapp_v1.0/contract/tokenbyb/tokenbyb.go:841-865 | merging loses and makes nothing, in any chromo, on any lists |
| `BybPayment.CreditShape` | abciapp_v1.0/contract/tokenbyb/tokenbyb.go:841-865 | merged lists stay free of repeats, of negative lots and, for positive lists, of empty lots; their chromos are exactly the old and the added ones |
| `BybPayment.CalcSenderBalance` | abciapp_v1.0/contract/tokenbyb/tokenbyb.go:679-768 | the sender's side computes `DebitLots` branch by branch |
| `BybPayment.MergeRounds` | abciapp_v1.0/contract/tokenbyb/tokenbyb.go:757-765 | the loop joining the two rounds computes `Merge` |
| `BybPayment.MergeHeld` | abciapp_v1.0/contract/tokenbyb/tokenbyb.go:757-765 | joining the rounds loses nothing of the second, in any chromo |
| `BybPayment.DebitIsExact` | abciapp_v1.0/contract/tokenbyb/tokenbyb.go:679-768 | a payment succeeds iff the sender holds enough, InvalidBalance is unreachable, the lots paid sum to exactly value, the rest to total - value, and every chromo balances |
| `BybPayment.DebitIsProportional` | abciapp_v1.0/contract/tokenbyb/tokenbyb.go:679-768 | over both rounds the sender parts with the part of every chromo that the value is of the holding, up to a unit for each lot |
| `BybPayment.DebitShape` | abciapp_v1.0/contract/tokenbyb/tokenbyb.go:679-768 | lots kept and lots paid are again repeat-free lists of the sender's chromos, positive where they must be |
| `BybInvariant.ChainWideSet` | abciapp_v1.0/contract/tokenbyb/statedb.go:57-87 | writing one account's list changes each chain-wide total by exactly that account's difference |
| `BybInvariant.InitKeeps` | abciapp_v1.0/contract/tokenbyb/tokenbyb.go:438-607 | Init, also over a burnt token of the sender's own, establishes the supply, the single white lot and keeps the invariant |
| `BybInvariant.NewBlackHoleKeeps` | abciapp_v1.0/contract/tokenbyb/tokenbyb.go:62-86 | a new black hole is apart from committee, stockholders and other holes |
| `BybInvariant.NewStockHolderKeeps` | abciapp_v1.0/contract/tokenbyb/tokenbyb.go:92-132 | issuing to a new or known stockholder keeps the invariant, at most 100 stockholders, fresh chromos |
| `BybInvariant.EnlistedCore` | abciapp_v1.0/contract/tokenbyb/tokenbyb.go:509-529 | a newly issued chromo is with nobody else, also after the 64-bit wrap |
| `BybInvariant.DelStockHolderKeeps` | abciapp_v1.0/contract/tokenbyb/tokenbyb.go:918-954 | removing a stockholder without lots keeps the invariant |
| `BybInvariant.SetOwnerKeeps` | abciapp_v1.0/contract/tokenbyb/tokenbyb.go:269-299 | a new owner is apart from holders and holes |
| `BybInvariant.ChangeSupplyKeeps` | abciapp_v1.0/contract/tokenbyb/tokenbyb.go:1092-1212 | adding supply and burning keep supply equal to the sum of all lots |
| `BybInvariant.TransferKeeps` | abciapp_v1.0/contract/tokenbyb/tokenbyb.go:165-216 | Transfer keeps the whole invariant |
| `BybInvariant.TransferByChromoKeeps` | abciapp_v1.0/contract/tokenbyb/tokenbyb.go:218-264 | TransferByChromo keeps the whole invariant, also out of a black hole to a stockholder |
| `BybInvariant.ChangeChromoOwnershipKeeps` | abciapp_v1.0/contract/tokenbyb/tokenbyb.go:1241-1288 | the unconditional append makes no repeat of a coloured chromo |
| `BybInvariant.StepKeeps` | abciapp_v1.0/contract/tokenbyb/tokenbyb.go:37-401 | every public method, succeeding or failing, keeps the invariant |
| `BybInvariant.EveryRunKeeps` | abciapp_v1.0/contract/tokenbyb/tokenbyb.go:37-401 | in every reachable state: roles disjoint, at most 100 stockholders, no coloured chromo with two stockholders or twice in a list, one white lot in the contract account, balances equal lot sums, supply equals the sum over all accounts |
| `BybTheorems.TransferConserves` | abciapp_v1.0/contract/tokenbyb/tokenbyb.go:165-264 | a successful transfer by anyone but a black hole leaves every chromo's chain-wide total unchanged |
| `BybTheorems.SenderPays` | abciapp_v1.0/contract/tokenbyb/tokenbyb.go:956-1024 | exactly value leaves the sender; the chain-wide change of each chromo is determined by the sender's role |
| `BybTheorems.HoleTransferBleaches` | abciapp_v1.0/contract/tokenbyb/tokenbyb.go:700-756 | a black hole's transfer takes exactly value out of its chromos, none of which grows, and makes exactly value of white |
| `BybTheorems.EveryCallMovesExactly` | abciapp_v1.0/contract/tokenbyb/tokenbyb.go:37-401 | every successful call moves exactly its value from payer to payee, changes no other balance, and changes the supply only by what comes in or goes out |
| `BybTheorems.TransferSucceedsIff` | abciapp_v1.0/contract/tokenbyb/tokenbyb.go:165-216 | Transfer succeeds iff value is positive, the roles allow it and the sender holds enough |
| `BybCalls.RoleIs` | abciapp_v1.0/contract/tokenbyb/tokenbyb.go:875-916 | committee, black hole and stockholder are each decided by their own list |
| `BybCalls.CallSucceedsIff` | abciapp_v1.0/contract/tokenbyb/tokenbyb.go:37-401 | each of the ten calls succeeds iff what it asks for holds, spelled out in addresses, lists and amounts |
| `BybCalls.RefusedFor` | abciapp_v1.0/contract/tokenbyb/tokenbyb.go:37-401 | a refused call returns the error of the first thing that is wrong |
| `BybCalls.RolesAfter` | abciapp_v1.0/contract/tokenbyb/tokenbyb.go:37-401 | what a successful call makes of owner, black holes and stockholders, address by address |
| `BybCalls.TokenAfter` | abciapp_v1.0/contract/tokenbyb/tokenbyb.go:37-401 | what a successful call makes of the token, its supply and the chromo counter |
| `BybCalls.OthersUntouched` | abciapp_v1.0/contract/tokenbyb/tokenbyb.go:37-401 | lots and balances of everybody but the parties stay as they are |
| `BybCalls.IssueExact` | abciapp_v1.0/contract/tokenbyb/tokenbyb.go:614-678 | an issue opens one lot of the next chromo or grows the first lot, out of the contract account's white lot |
| `BybCalls.VaultExact` | abciapp_v1.0/contract/tokenbyb/tokenbyb.go:438-1212 | Init, added and burnt supply leave the contract account one white lot of the new amount |
| `BybCalls.HandoverExact` | abciapp_v1.0/contract/tokenbyb/tokenbyb.go:1241-1288 | a handover moves the first lot of the chromo to the end of the other list |
| `BybCalls.ByChromoExact` | abciapp_v1.0/contract/tokenbyb/tokenbyb.go:956-1024 | a payment by chromo moves the value of that chromo and of no other; out of a black hole it arrives as white |
| `BybCalls.TransferExact` | abciapp_v1.0/contract/tokenbyb/tokenbyb.go:165-216 | a transfer moves every chromo in proportion and the payee gains what the sender loses, or as much white out of a black hole |
| `BybExclusive.ColouredIsExclusive` | abciapp_v1.0/contract/tokenbyb/tokenbyb.go:1265-1274 | if no stockholder lists white, no list has repeats and no two stockholders share a chromo |
| `BybExclusive.IssueWhite` | abciapp_v1.0/contract/tokenbyb/tokenbyb.go:509-529 | issuing gives a stockholder white iff the chromo counter wraps |
| `BybExclusive.ByChromoWhite` | abciapp_v1.0/contract/tokenbyb/tokenbyb.go:1014-1020 | a transfer by chromo gives a stockholder white iff it goes from a black hole to a stockholder |
| `BybExclusive.WhiteStaysOutIff` | abciapp_v1.0/contract/tokenbyb/tokenbyb.go:218-264 | while no stockholder lists white, exactly those two calls put white into a stockholder's list |
| `BybExclusive.WhiteReachesHolderIff` | abciapp_v1.0/contract/tokenbyb/tokenbyb.go:92-264 | the guards a caller can check are those under which the two calls succeed |
| `BybExclusive.ExclusiveIff` | abciapp_v1.0/contract/tokenbyb/tokenbyb.go:37-401 | a call makes a chromo doubled or shared among stockholders iff it puts white into a stockholder's list while another stockholder lists white already |
| `BybExclusive.ExclusiveRunIff` | abciapp_v1.0/contract/tokenbyb/tokenbyb.go:37-401 | chromos stay exclusive all along a run iff no call of it brings white to a second stockholder |
| `BybExclusive.WhiteTwiceIsReachable` | abciapp_v1.0/contract/tokenbyb/tokenbyb.go:1243-1274 | a concrete run of accepted calls ends with white listed twice by one stockholder |
| `BybToken.TokenByb.constructor` | abciapp_v1.0/contract/tokenbyb/tokenbyb.go:30-32 | the contract as deployed, before Init |
| `BybToken.TokenByb.SetBybBalance` | abciapp_v1.0/contract/tokenbyb/statedb.go:57-87 | writes the list and, with it, the balance that is its sum |
| `BybToken.TokenByb.GetBybBalance` | abciapp_v1.0/contract/tokenbyb/statedb.go:89-106 | reads the list, empty when none is stored |
| `BybToken.TokenByb.CheckAddress` | abciapp_v1.0/contract/tokenbyb/tokenbyb.go:875-916 | the role is the first match among committee, holes, stockholders, user |
| `BybToken.TokenByb.CalcNewChromo` | abciapp_v1.0/contract/tokenbyb/tokenbyb.go:509-529 | the next chromo, wrapping at 2^64; none after a stored zero |
| `BybToken.TokenByb.RemoveHolder` | abciapp_v1.0/contract/tokenbyb/tokenbyb.go:933-951 | removes the first match from the stored list |
| `BybToken.TokenByb.Init` | abciapp_v1.0/contract/tokenbyb/tokenbyb.go:37-60 | new state and error are those of the Init step; a failed call changes nothing |
| `BybToken.TokenByb.NewBlackHole` | abciapp_v1.0/contract/tokenbyb/tokenbyb.go:62-86 | new state and error of the step |
| `BybToken.TokenByb.NewStockHolder` | abciapp_v1.0/contract/tokenbyb/tokenbyb.go:92-132 | new state and error of the step, with the panic after an exhausted counter |
| `BybToken.TokenByb.EndowHolder` | abciapp_v1.0/contract/tokenbyb/tokenbyb.go:1291-1325 | writes the stockholder's list and the contract account's remaining lot |
| `BybToken.TokenByb.DelStockHolder` | abciapp_v1.0/contract/tokenbyb/tokenbyb.go:134-161 | new state and error of the step |
| `BybToken.TokenByb.Transfer` | abciapp_v1.0/contract/tokenbyb/tokenbyb.go:165-216 | new state and error of the step |
| `BybToken.TokenByb.DrawOn` | abciapp_v1.0/contract/tokenbyb/tokenbyb.go:980-1007 | draws on the first lot of the chromo; an emptied lot stays only with a stockholder |
| `BybToken.TokenByb.TransferByChromo` | abciapp_v1.0/contract/tokenbyb/tokenbyb.go:218-264 | new state and error of the step |
| `BybToken.TokenByb.OwnsChromo` | abciapp_v1.0/contract/tokenbyb/tokenbyb.go:1026-1038 | true iff the holder lists the chromo |
| `BybToken.TokenByb.SetOwner` | abciapp_v1.0/contract/tokenbyb/tokenbyb.go:269-299 | new state and error of the step |
| `BybToken.TokenByb.AddSupply` | abciapp_v1.0/contract/tokenbyb/tokenbyb.go:301-322 | new state and error of the step |
| `BybToken.TokenByb.Burn` | abciapp_v1.0/contract/tokenbyb/tokenbyb.go:324-345 | new state and error of the step |
| `BybToken.TokenByb.ChangeChromoOwnership` | abciapp_v1.0/contract/tokenbyb/tokenbyb.go:371-401 | new state and error of the step |
| `StateStore.ParseDigits` | statedb/statedb.go:139-155 | a stored transaction ID reads back as itself |
| `StateHistory.KeptIds` | statedb/snapshot.go:133-150 | pruning stops where the retained range starts and keeps exactly the IDs above the new floor |
| `StateHistory.SnapshotCommitRange` | statedb/snapshot.go:92-131 | after the snapshot batch the retained IDs are a contiguous range ending at the new ID, at most maxCount long |
| `StateHistory.CrashKeeps` | statedb/transaction.go:91-105 | a crash between the two batches leaves the state database alone and the store in the one-ahead state |
| `StateHistory.CommitIff` | statedb/transaction.go:63-92 | a commit completes iff no transaction is open and the in-memory counter stands at the last ID; otherwise neither database changes |
| `StateHistory.CommitCompletesIff` | statedb/transaction.go:63-92 | in any store a commit completes iff no transaction is open, its ID follows the state database's last one and repeats or follows the snapshot database's, if that has any |
| `StateHistory.CommitKeeps` | statedb/transaction.go:63-108 | a commit adds one state to the history and leaves the databases in agreement with at most maxCount snapshots |
| `StateHistory.UndoOne` | statedb/snapshot.go:52-90 | undoing one commit passes the consistency checks iff its buffer is undoable, and restores the state before it |
| `StateHistory.UndoRange` | statedb/snapshot.go:37-42 | the descending loop restores history down to the newest commit that cannot be undone |
| `StateHistory.RollbackIff` | statedb/snapshot.go:15-50 | Rollback(n) completes iff the databases agree, n snapshots are retained and each of the n buffers is undoable |
| `StateHistory.RollbackRestores` | statedb/snapshot.go:15-90 | a completed rollback restores the data of commit last-n, truncates the history, and both databases agree on the last ID |
| `StateHistory.FailedRollback` | statedb/snapshot.go:15-90 | a refused rollback leaves the snapshot database as it is; it has written to the state database iff the newest commit asked for can be undone, another cannot and the oldest is not empty, and then stands at the newest that cannot, with the databases disagreeing |
| `StateRuns.StepKeeps` | statedb/snapshot.go:92-150 | commits, crashes, rollbacks, reopenings and removal of the snapshot database keep the run invariant |
| `StateRuns.RunKeeps` | statedb/snapshot.go:92-150 | in every run the retained snapshots are a contiguous range of at most maxCount IDs, the one ahead after a crash included, and the counter is never behind the last ID |
| `StateRuns.RollbackInvertsHistory` | statedb/snapshot.go:15-90 | after every proper run Rollback(n) completes iff n is within the range and then restores the data as of n commits ago; refused, it changes nothing |
| `StateRuns.CommitsUnlessStuck` | statedb/statedb.go:76-90 | in a proper run a commit completes iff no transaction is left open and the counter is not past the last ID |
| `StateRuns.RollbackNeedsReopening` | statedb/statedb.go:102-133 | in every proper run each commit after a completed rollback panics until the store is reopened, whatever comes between |
| `StateRuns.ReopeningResumes` | statedb/statedb.go:22-66 | after a reopening the next commit completes |
| `StateRuns.CrashRecovery` | statedb/transaction.go:91-107 | after a crash rollbacks refuse without change; reopening and committing the same ID with any data re-establishes the invariant |
| `StateRuns.OneCommitUndone` | statedb/snapshot.go:54-75 | a commit can be undone iff its buffer is not empty and writes the bookkeeping key, if at all, with the text the commit stores |
| `StateRuns.HalfWayIsReachable` | statedb/snapshot.go:25-50 | after a non-empty, an empty and a non-empty commit Rollback(3) panics with last IDs 2 and 3 in the two databases |
| `StateRuns.CommitPanicsAfterRollback` | statedb/statedb.go:102-133 | a commit, a rollback of it that completes, and a commit that panics |
| `StateDb.StateDB.constructor` | statedb/statedb.go:22-66 | opening reads the counter back from the state database |
| `StateDb.StateDB.NewCommittableTransaction` | statedb/statedb.go:76-90 | at most one open transaction; its ID is the counter plus one |
| `StateDb.StateDB.CheckMaxCount` | statedb/snapshot.go:133-150 | the descending loop collects exactly the expired IDs |
| `StateDb.StateDB.SnapshotCommitted` | statedb/snapshot.go:92-131 | new snapshot state, or refusal of a wrong ID |
| `StateDb.StateDB.RollbackStateDb` | statedb/snapshot.go:52-90 | undoes one commit, or refuses without a write |
| `StateDb.StateDB.Rollback` | statedb/snapshot.go:15-50 | new state of both databases, also when it stops half-way |
| `StateDb.Transaction.Get` | statedb/transaction.go:41-51 | buffered value, else the database's |
| `StateDb.Transaction.BatchSet` | statedb/transaction.go:57-61 | merges the data into the buffer whatever the order of the walk |
| `StateDb.Transaction.Overwritten` | statedb/transaction.go:72-89 | the loop collects the overwritten value of every buffered key |
| `StateDb.Transaction.Commit` | statedb/transaction.go:63-108 | new state of both databases, or refusal without a write |
| `StateDb.Transaction.GetBuffer` | statedb/transaction.go:114-131 | the bytes are those of the sorted keys, a function of the buffer's contents |
| `StateDb.Tx.Commit` | statedb/tx.go:32-53 | merges into the block's buffer, empties its own, returns the bytes of the sorted write set |
| `StateDb.Tx.BatchSet` | statedb/tx.go:26-30 | merges the data into the buffer |
| `BufferBytes.SortingIsUnique` | statedb/tx.go:44-50 | a set of keys has one sorted sequence |
| `BufferBytes.BeforeIs` | statedb/tx.go:44-45 | the order is that of the first difference, a prefix before what extends it |
| `BufferBytes.BytesHold` | statedb/tx.go:45-50 | every key and its value stand in the bytes one after the other, after all smaller keys |
| `BufferBytes.BytesTellValues` | statedb/tx.go:45-50 | with the same keys and value lengths only equal buffers have equal bytes |
| `BufferBytes.Serialize` | statedb/tx.go:32-53 | walking the map in any order gives the one byte string of the sorted keys |
| `BlockLayers.BuffersArePending` | statedb/tx.go:18-57 | a transaction's buffer is what it has written since it was opened, committed or rolled back |
| `BlockLayers.OpenIffOpened` | common/statedbhelper/statedbhelper.go:71-81 | a transaction is open from its opening to the end of the block, rolled back or committed in between or not |
| `BlockLayers.LayersRefine` | common/statedbhelper/statedbhelper.go:264-404 | for every interleaving over any number of blocks the database is the base with committed write sets, direct block writes and accepted nonces applied in order |
| `BlockLayers.RolledBackIsGone` | common/statedbhelper/statedbhelper.go:377-382 | whatever is interleaved with it (other transactions, direct writes, nonces, block commits), a transaction that is rolled back leaves everything as it would be without its writes |
| `BlockLayers.ReadsRefine` | common/statedbhelper/statedbhelper.go:848-869 | after any run a transaction reads its own pending value unless empty, else the value of the log applied to the base |
| `BlockLayers.ReadBackIff` | common/statedbhelper/statedbhelper.go:848-869 | after any run a transaction reads back its last write to a key iff the value is not empty or the log leaves nothing there |
| `BlockLayers.DeletionUnseen` | common/statedbhelper/statedbhelper.go:848-869 | a transaction that deletes a stored key still reads the stored value, although the deletion is committed |
| `BlockLayers.NonceStep` | common/statedbhelper/statedbhelper.go:264-313 | every step leaves the visible nonce unchanged, or replaces it by the next when a nonce is accepted |
| `BlockLayers.NoncesAreConsecutive` | common/statedbhelper/statedbhelper.go:264-340 | an account's accepted nonces are consecutive from the stored one (from 1 when none), modulo 2^64, through rollbacks and blocks |
| `BlockLayers.NoncesCount` | common/statedbhelper/statedbhelper.go:316-340 | the i-th nonce accepted is the stored one plus i, modulo 2^64 |
| `BlockLayers.NonceIsListed` | common/statedbhelper/statedbhelper.go:264-313 | an accepted nonce stands in the block at once; on first use its key is appended to the account's list; nothing else changes |
| `BlockLayers.NonceListedOnce` | common/statedbhelper/statedbhelper.go:290-308 | over every run the nonce key is listed once, after the entries there were, iff a nonce was accepted and none stored before |
| `BlockStore.Trans.NewTx` | common/statedbhelper/statedbhelper.go:71-81 | opens a fresh, empty buffer and leaves the others alone |
| `BlockStore.Trans.Get` | common/statedbhelper/statedbhelper.go:848-869 | the layered read |
| `BlockStore.Trans.BatchSet` | common/statedbhelper/statedbhelper.go:886-899 | writes to one transaction's buffer only |
| `BlockStore.Trans.CommitTx` | common/statedbhelper/statedbhelper.go:393-398 | merges one transaction's buffer into the block |
| `BlockStore.Trans.RollbackTx` | common/statedbhelper/statedbhelper.go:377-382 | empties one transaction's buffer only |
| `BlockStore.Trans.CommitTx2V1` | common/statedbhelper/statedbhelper.go:401-404 | merges data straight into the block's buffer; transaction buffers stay |
| `BlockStore.Trans.CommitBlock` | common/statedbhelper/statedbhelper.go:385-391 | the block's write set reaches the database with the bookkeeping key and the snapshot store; refused, nothing changes |
| `BlockStore.Trans.CheckAccountNonce` | common/statedbhelper/statedbhelper.go:316-340 | accepts exactly the stored nonce plus one, wrapping |
| `BlockStore.Trans.SetAccountNonce` | common/statedbhelper/statedbhelper.go:264-313 | writes an accepted nonce past the transaction's buffer; a refused one changes nothing |
| `CallGraph.RankedHasNoCycle` | smccheck/parsecode/parsecall.go:597-612 | a graph whose calls go up a rank has no closed walk through two names |
| `CallGraph.LeadsIffWalk` | smccheck/parsecode/parsecall.go:597-612 | transitive callers are what walks say they are |
| `CallGraph.NewCallsKeepRank` | smccheck/parsecode/parsecall.go:585-595 | new calls from a name to names that do not lead to it, or to itself, keep the graph free of cycles through two names |
| `CallCycle.SearchIsComplete` | smccheck/parsecode/parsecall.go:597-612 | through the direct callers the search reaches exactly the transitive callers, skipping same-name callers included |
| `CallCycle.CallsIffLeads` | smccheck/parsecode/parsecall.go:430-435 | compared by name, the callers found are the transitive callers of the name-level graph |
| `CallCycle.GetCalledNodes` | smccheck/parsecode/parsecall.go:597-612 | the unguarded recursion ends and returns exactly the transitive callers, whatever the order of the map |
| `CallCycle.HasCycleCall` | smccheck/parsecode/parsecall.go:585-595 | true iff the callee is a transitive caller of the caller |
| `CallCycle.CheckRecursive` | smccheck/parsecode/parsecall.go:461-507 | the walk over one body computes `Visit`, pruning reported calls |
| `CallCycle.CheckCycleCall` | smccheck/parsecode/parsecall.go:438-459 | the walk over all functions ends, computes `Check`, and what it collects has no cycle through two names |
| `CallCycle.VisitFacts` | smccheck/parsecode/parsecall.go:487-505 | collected calls never lead back; without a report every call is collected; every report is about a call that is there |
| `CallCycle.StoringKeepsRank` | smccheck/parsecode/parsecall.go:454-454 | storing a function's list, also over an earlier one, keeps the collected graph acyclic |
| `CallCycle.CollectedHasNoCycle` | smccheck/parsecode/parsecall.go:438-459 | the collected graph is acyclic apart from self-loops after every prefix of the functions |
| `CallCycle.SilenceMeansNoCycle` | smccheck/parsecode/parsecall.go:438-507 | where no function is followed by one of its key and then by one of another name (so with distinct keys), no report means the whole program has no cycle through two or more names |
| `CallCycle.ReportsAreJustified` | smccheck/parsecode/parsecall.go:482-500 | every report names a self-call or a call that closes a walk of the program |
| `CallCycle.ReportMeansClosedWalk` | smccheck/parsecode/parsecall.go:482-500 | where there is a report the program has a closed walk |
| `CallCycle.ReportedIff` | smccheck/parsecode/parsecall.go:461-507 | a report is made iff some function has a reached call that is one to itself, by its plain name or its receiver variable, or one to a name that leads back by the calls collected before |
| `CallCycle.SilentReachesAll` | smccheck/parsecode/parsecall.go:467-505 | without a report about a body every call in it is reached, nested ones included |
| `CallCycle.SilenceMeansNoRecursion` | smccheck/parsecode/parsecall.go:481-499 | without a report no function calls itself anywhere in its body |
| `CallCycle.SharedKeyHidesCycle` | smccheck/parsecode/parsecall.go:448-454 | for every list of functions with such a triple there are bodies with a cycle and no report |
| `CallCycle.SilenceIsSoundIff` | smccheck/parsecode/parsecall.go:438-507 | over all bodies of given functions silence excludes cycles iff there is no such triple |
| `ContractWindows.ApartIffDisjoint` | abciapp_v1.0/contract/system/system.go:153-288 | closed-before-effective is the same as disjoint [effect, lose) windows |
| `ContractWindows.OldVersionsClosed` | abciapp_v1.0/contract/smcapi/smcapi.go:443-484 | a successful deployment finds every older version earlier and closed by the new effect height |
| `ContractWindows.DeployKeeps` | abciapp_v1.0/contract/system/system.go:153-243 | deploying keeps windows disjoint, the address list sorted and the version list in step, also when an address is deployed again |
| `ContractWindows.DeploySucceedsIff` | abciapp_v1.0/contract/system/system.go:153-243 | a deployment succeeds iff no check refuses it, each check spelled out |
| `ContractWindows.DeployRefused` | abciapp_v1.0/contract/system/system.go:153-243 | the error is that of the first check that refuses |
| `ContractWindows.DeployWindows` | abciapp_v1.0/contract/smcapi/smcapi.go:443-484 | the new version is in its window from its effect height on, older ones as before up to it |
| `ContractWindows.DeployLists` | abciapp_v1.0/contract/system/system.go:215-236 | the address is listed in order and, on an upgraded chain, at the end of the version list |
| `ContractWindows.ForbidKeeps` | abciapp_v1.0/contract/smcapi/smcapi.go:405-441 | forbidding keeps them |
| `ContractWindows.ForbidExact` | abciapp_v1.0/contract/system/system.go:245-288 | when forbidding succeeds and with which error it fails; the version is then in its window exactly from its effect height up to the one given, and nothing else changes |
| `ContractWindows.EveryRunKeeps` | abciapp_v1.0/contract/system/system.go:153-288 | over every run of deployments and forbiddings at most one version is open and no two are effective at one height |
| `ContractWindows.ForbiddenIff` | abciapp_v1.0/contract/smcapi/smcapi.go:452-481 | a deployment is refused as forbidden iff it passes every other check and some version's address comes after the open version's |
| `ContractWindows.TwoVersionsReach` | abciapp_v1.0/contract/system/system.go:153-243 | deployments at addresses b and then a are accepted and lead to a registry of two versions |
| `ContractWindows.BarredForGood` | abciapp_v1.0/contract/smcapi/smcapi.go:452-481 | once the version with the greatest address is closed, no deployment is ever accepted and no address added, whatever follows |
| `ContractWindows.LastDeploymentIff` | abciapp_v1.0/contract/smcapi/smcapi.go:452-481 | a deployment bars the name for good iff some older version has a greater address |
| `ContractWindows.ThirdVersionForbidden` | abciapp_v1.0/contract/smcapi/smcapi.go:452-481 | after those two, and after whatever follows, no deployment is accepted; one that passes all other checks is refused as forbidden |
| `ContractWindows.ListedSorts` | abciapp_v1.0/statedb/txstate.go:404-425 | the stored address list stays the sorted list of its addresses |
| `ContractWindows.FirstEffectiveIs` | smcrunctl/invokermgr/invokermgr.go:615-625 | the forward scan returns a listed contract in its window, or there is none |
| `ContractWindows.LastRecordedIs` | common/statedbhelper/statedbhelper.go:677-681 | the backward scan returns the last line whose recorded effect height has come |
| `ContractWindows.ScansAgree` | smcrunctl/invokermgr/invokermgr.go:608-628 | when the forward scan finds a contract the backward scan returns it; it finds one iff the backward result is in its window |
| `SystemContract.Versions.CheckDisabled` | abciapp_v1.0/contract/system/system.go:290-341 | the loop decides whether the name is disabled |
| `SystemContract.Versions.CheckAndForbid` | abciapp_v1.0/contract/smcapi/smcapi.go:443-484 | the loop rejects outdated versions, closes the open ones in the buffer and reports the last one's state |
| `SystemContract.Versions.InsertAddress` | abciapp_v1.0/statedb/txstate.go:404-425 | inserts an address at its place, once |
| `SystemContract.Versions.DeployInternalContract` | abciapp_v1.0/contract/system/system.go:153-243 | new registry or error of the step; a failed call changes nothing |
| `SystemContract.Versions.ForbidInternalContract` | abciapp_v1.0/contract/system/system.go:245-288 | new registry or error of the step |
| `SystemContract.Versions.GetContractAddr` | abciapp_v1.0/contract/smcapi/smcapi.go:330-347 | returns an effective contract, or none is |
| `SystemContract.Versions.GetEffectContract` | smcrunctl/invokermgr/invokermgr.go:615-625 | the forward scan |
| `SystemContract.Versions.GetEffectContractByName` | common/statedbhelper/statedbhelper.go:664-684 | the backward scan |
| `RewardStrategies.LookupsAgree` | abciapp_v1.0/contract/stubapi/invokecontext.go:911-918 | forward and backward look-ups agree at every height on a rising list |
| `RewardStrategies.UpdateIs` | abciapp_v1.0/contract/stubapi/invokecontext.go:1134-1165 | on a rising list an update drops exactly what precedes the last strategy in effect |
| `RewardStrategies.PastIsGreatest` | abciapp_v1.0/contract/stubapi/invokecontext.go:1134-1150 | of strategies in effect, in any order, the loop finds the first of the greatest effect height |
| `RewardStrategies.UpdatePreservesLookups` | abciapp_v1.0/contract/stubapi/invokecontext.go:1111-1176 | an allowed update keeps the list rising; above the committed height look-ups give the new strategy from its effect height on and the old answer before |
| `RewardStrategies.BackwardIs` | common/statedbhelper/statedbhelper.go:502-506 | the backward scan returns the last strategy in effect |
| `RewardStrategies.StrategyStore.CheckEffectHeight` | abciapp_v1.0/contract/stubapi/invokecontext.go:1011-1045 | allowed iff above the committed height and above every stored one |
| `RewardStrategies.StrategyStore.UpdateRewardStrategy` | abciapp_v1.0/contract/stubapi/invokecontext.go:1134-1167 | the loop computes `Update` |
| `RewardStrategies.StrategyStore.GetStrategy` | abciapp_v1.0/contract/stubapi/invokecontext.go:886-921 | the forward loop |
| `RewardStrategies.StrategyStore.GetRewardStrategy` | common/statedbhelper/statedbhelper.go:490-509 | the backward loop |
| `GasPayment.SafeMulExact` | abciapp_v1.0/contract/stubapi/invokecontext.go:657-672 | overflow is reported iff the true product reaches 2^64; otherwise the product is exact |
| `GasPayment.FeeBound` | abciapp_v1.0/contract/stubapi/invokecontext.go:370-399 | the fee and each error code for every gas, limit and price |
| `GasPayment.SplitIs` | abciapp_v1.0/contract/stubapi/invokecontext.go:930-963 | the wrapping sum of shares is the true sum, and exceeds the stored rewards by exactly the overwritten shares |
| `GasPayment.RewardsSumToValue` | abciapp_v1.0/contract/stubapi/invokecontext.go:924-976 | the rewards sum to exactly the value less what repeated payees overwrote |
| `GasPayment.LostIff` | abciapp_v1.0/contract/stubapi/invokecontext.go:957-961 | nothing is lost iff every share overwritten by a later line for its payee is 0 |
| `GasPayment.LastShareIsStored` | abciapp_v1.0/contract/stubapi/invokecontext.go:930-962 | the split stores the share of each payee's last line |
| `GasPayment.NothingLost` | abciapp_v1.0/contract/stubapi/invokecontext.go:957-961 | distinct payees overwrite nothing |
| `GasPayment.SharesWithinValue` | abciapp_v1.0/contract/stubapi/invokecontext.go:940-962 | with at most 100 percent the shares never exceed the value |
| `GasPayment.CreditedSum` | abciapp_v1.0/contract/stubapi/invokecontext.go:979-1008 | crediting adds exactly the rewards to the sum of balances |
| `GasPayment.PaymentSum` | abciapp_v1.0/contract/stubapi/invokecontext.go:403-549 | a committed payment lowers the sum of balances by exactly the overwritten shares, or by the value charged when there is no proposer, and leaves none negative |
| `GasPayment.RewardsPay` | abciapp_v1.0/contract/stubapi/invokecontext.go:924-976 | every address is paid the share of the last line that names it, the proposer's also what rounding left |
| `GasPayment.PaymentExact` | abciapp_v1.0/contract/stubapi/invokecontext.go:403-549 | address by address: the sender loses the fee or all of a short balance, everybody gains the reward, and the code tells a short balance |
| `GasPayment.PaymentOutcome` | abciapp_v1.0/contract/stubapi/invokecontext.go:403-549 | which payments are committed, and the error of the others in order |
| `GasPayment.PaymentConservesIff` | abciapp_v1.0/contract/stubapi/invokecontext.go:403-549 | a committed payment leaves the sum of balances unchanged iff only shares of 0 are overwritten, so with distinct payees; also for short balances and a sender who is a rewarder |
| `RewardPercents.RatioOfNumeral` | abciapp_v1.0/contract/stubapi/invokecontext.go:932-938 | of a decimal numeral a payment reads the digits, a negative one as a uint64 |
| `RewardPercents.AtoiIff` | abciapp_v1.0/contract/stubapi/invokecontext.go:931-938 | exactly the integer texts in the range of an int64 are read, with their value |
| `RewardPercents.DivisorIs` | abciapp_v1.0/contract/stubapi/invokecontext.go:947-954 | up to 18 zeros the divisor is exact, from 19 on the largest int64 |
| `RewardPercents.DivisorOf` | abciapp_v1.0/contract/stubapi/invokecontext.go:947-954 | the loop writes and reads back 10 to the number of decimals plus 2, or to the whole length plus 2 without a point |
| `RewardPercents.PartIffPoint` | abciapp_v1.0/contract/stubapi/invokecontext.go:932-956 | a percentage is paid at its face value iff it is 0 or written with a point, and at less otherwise |
| `RewardChecks.AcceptedIff` | abciapp_v1.0/contract/stubapi/invokecontext.go:1048-1108 | a strategy is accepted iff every line is named, addressed, not negative and has at most two decimals, the percentages make 100 and validators are named |
| `RewardChecks.CheckRewardStrategy` | abciapp_v1.0/contract/stubapi/invokecontext.go:1048-1108 | the loop computes the verdict `Check`, in the order of its errors |
| `RewardChecks.VerdictIs` | abciapp_v1.0/contract/stubapi/invokecontext.go:1064-1107 | the verdict is the fault of the first faulty line, or that of the whole strategy |
| `RewardChecks.AcceptedFractions` | abciapp_v1.0/contract/stubapi/invokecontext.go:924-963 | the fractions by which an accepted strategy of numerals pays never exceed the whole, and make it iff every percentage but 0 has a point |
| `RewardChecks.AcceptedPaysIff` | abciapp_v1.0/contract/stubapi/invokecontext.go:924-976 | an accepted strategy of numerals pays a value iff no product with a ratio reaches 2^64 |
| `RewardChecks.BlocksAllIff` | abciapp_v1.0/contract/stubapi/invokecontext.go:932-938 | every payment fails iff some percentage, its point dropped, is no integer text |
| `RewardChecks.NoNumberBlocks` | abciapp_v1.0/contract/stubapi/invokecontext.go:1048-1108 | a strategy with a percentage that is no number is accepted and blocks every payment |
| `RewardChecks.PointlessUnderpays` | abciapp_v1.0/contract/stubapi/invokecontext.go:947-954 | a strategy of 80 and 20 percent without points is accepted and pays 0.2 instead of 20 percent |
| `RewardChecks.RepeatedPayeeLoses` | abciapp_v1.0/contract/stubapi/invokecontext.go:957-961 | an accepted strategy with one address twice: two fifths of the value are lost |
| `GasPayment.SetRewardBalances` | abciapp_v1.0/contract/stubapi/invokecontext.go:979-1008 | the loop, in any order, computes `Credited` |
| `GasPayment.BasicToken.CalcdRewards` | abciapp_v1.0/contract/stubapi/invokecontext.go:924-976 | the loop computes `CalcRewards`, including the error exits for a percentage that is no number, an overflow and too large a sum |
| `GasPayment.BasicToken.CheckAndPayForGas` | abciapp_v1.0/contract/stubapi/invokecontext.go:403-549 | new balances of a committed payment, with or without a proposer; an error before the commit changes nothing |
| `ValidatorPower.SumUpIs` | abciapp_v1.0/contract/stubapi/invokecontext.go:694-711 | the loop's running values are those of the updated set, and it overflows iff that total does |
| `ValidatorPower.AcceptedIff` | abciapp_v1.0/contract/stubapi/invokecontext.go:675-734 | accepted iff the updated total fits in 64 bits and the greatest power is below a third of it, the unchecked addition notwithstanding |
| `ValidatorPower.SucceedsIff` | abciapp_v1.0/contract/stubapi/invokecontext.go:736-836 | an update succeeds iff it is complete and the set it leads to has a 64-bit total of which nobody reaches a third |
| `ValidatorPower.UpdatedAt` | abciapp_v1.0/contract/stubapi/invokecontext.go:691-701 | the first validator of the node gets the power, or a new one is appended |
| `ValidatorPower.RunBounded` | abciapp_v1.0/contract/stubapi/invokecontext.go:736-836 | over every run, after an accepted update every power is below a third of the true total |
| `ValidatorPower.CheckValidatorsPower` | abciapp_v1.0/contract/stubapi/invokecontext.go:675-734 | the loop computes `Accepted` |
| `FeeDistribution.GatheringPreservesTotal` | abciapp/service/deliver/delivertx.go:406-435 | grouping by payer preserves the total fee while it is below 2^63 |
| `FeeDistribution.GatheringWraps` | abciapp/service/deliver/delivertx.go:406-435 | beyond that the gathered sum and the returned total agree with it modulo 2^64 |
| `FeeDistribution.GatheredInRange` | abciapp/service/deliver/delivertx.go:406-435 | gathered values stay in the range of an int64 |
| `FeeDistribution.GatheredKeys` | abciapp/service/deliver/delivertx.go:406-435 | the payers gathered are those with a fee |
| `FeeDistribution.GatheredIs` | abciapp/service/deliver/delivertx.go:406-435 | each payer's gathered value is what the payer paid |
| `FeeDistribution.GatheredToken` | abciapp/service/deliver/delivertx.go:423-426 | a payer's gathered fee carries the token of the payer's last fee |
| `FeeDistribution.TokenKeptIff` | abciapp/service/deliver/delivertx.go:423-426 | a payer's gathered fee is right in every token iff all the payer's fees other than 0 are in the token of the last |
| `FeeDistribution.TwoTokens` | abciapp/service/deliver/delivertx.go:423-426 | one unit in each of two tokens is gathered as two of the second |
| `FeeDistribution.GatherFeesByFromAddr` | abciapp/service/deliver/delivertx.go:406-435 | the loop computes the grouping, tokens included, and the wrapping total |
| `FeeDistribution.DustBound` | abciapp/service/deliver/delivertx.go:260-281 | awards of 100 percent fall short of the fee by less than the number of rewarders, and by nothing iff every share is whole |
| `FeeDistribution.SharedRecords` | abciapp/service/deliver/delivertx.go:266-280 | what an address gains in the fee's token is what is recorded as its reward; no other token's balance changes |
| `FeeDistribution.DistributedAwards` | abciapp/service/deliver/delivertx.go:234-285 | account by account: awards of the lines that pay it in the fee's token, less its own fee where it is charged here; the record gains the awards |
| `FeeDistribution.TotalAwards` | abciapp/service/deliver/delivertx.go:190-231 | over all gathered payers every account and every record changes by the sum of these |
| `FeeDistribution.DistributionDust` | abciapp/service/deliver/delivertx.go:234-285 | on the failed or virtual-machine path the token's sum of balances drops by exactly the dust; otherwise it grows by the fee less the dust; there is none iff every share is whole |
| `FeeDistribution.OneUnitIsLost` | abciapp/service/deliver/delivertx.go:260-264 | a fee of 1 over two halves is lost altogether |
| `FeeDistribution.TotalDust` | abciapp/service/deliver/delivertx.go:190-231 | over the gathered payers in sorted order, on each path and in each token, the loss is bounded and is 0 iff every payer's shares are whole |
| `FeeDistribution.AppDeliver.DistributeFee` | abciapp/service/deliver/delivertx.go:234-285 | the loop computes `Distributed`, with the early return at a percentage that does not parse; what is left over is the dust |
| `FeeDistribution.AppDeliver.EmitFeeReceipts` | abciapp/service/deliver/delivertx.go:190-231 | gathers, sorts and distributes; the outcome does not depend on the order of the map walk |
| `Mining.HalvingClosedForm` | abciapp_v1.0/contract/mining/mining.go:11-73 | mining at every height from h0, the reward is max(1, 150000000 / 2^k) with k = (h-h0)/66000000, one more iff h0 is a multiple of the interval |
| `Mining.HalvingPromisedIff` | abciapp_v1.0/contract/mining/mining.go:11-73 | one halving for each whole interval holds at every height iff the first height is no multiple of the interval |
| `Mining.HalvedIff` | abciapp_v1.0/contract/mining/mining.go:61-73 | a call halves a reward above 1 iff its height is after the start by a whole number of intervals; a reward of 1 stays |
| `Mining.MiningContract.CalcRewardAmount` | abciapp_v1.0/contract/mining/mining.go:61-73 | pays and stores the halved amount |
| `Mining.MiningContract.MineBlock` | abciapp_v1.0/contract/mining/mining.go:11-59 | takes exactly the reward from the contract's account to the payee's when the low 64 bits of its balance cover it, every other account untouched; a refused transfer keeps none of the call's writes |

## Left out

- TransferConserves: speaks of BYB's own methods; BYB balances changed by other contracts through the generic token transfer are not modelled.
- InitKeeps: a takeover of a burnt token also closes the other contract; that contract is outside the model.
- SilenceIsSoundIff: self-calls by name that the checker tolerates are not counted as cycles.
- PaymentConservesIff: shares are exact fractions with a floor; the rounding of the 64-bit float division is not modelled.
- AcceptedIff: percentages are added as exact numbers; float notations other than decimal numerals (exponents, hexadecimal, underscores, infinities) count as refused texts, and the JSON text of a strategy is its value.
- TotalDust: a fee made negative by the int64 wrap of its payer's total is divided with a floor, and the record of rewards does not wrap.
- ForbiddenIff: the address list is the stored, sorted one; the list rebuilt for chains that have none stored is not modelled.
- RunBounded: speaks of the list of validators as stored; how the list is read from the keys is not modelled.
- DustBound: basis points are integers; the float parsing and truncation of the percentage is not modelled.
- HalvingClosedForm: speaks of mining at every height; a skipped halving height is not modelled.
- NoncesAreConsecutive: dropping a whole block (RollbackBlock), which also drops its nonces, is not modelled.
- RunKeeps: a reopening keeps the snapshot count it was opened with, at least 1; a count of 0 is in the step functions but not in the run theorems.
- ScansAgree: the token and standard-method branches around the forward scan are not modelled, only the scan.
- LayersRefine: the bookkeeping key of the store is outside this view; WrittenData in StateHistory connects the two.
- Gas price setting, receipts, and the vesting, agency and template tokens are not modelled.
- Contract version strings and content hashes: versions are compared as numbers and addresses are given.
- Crashes in the middle of a rollback: the code promises nothing there.
- The burrow virtual machine, docker, RPC, code generation and configuration: plumbing without a property of this kind.
