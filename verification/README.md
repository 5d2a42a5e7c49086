# Verified models of the CryLo wallet, its translation embedder and its batch guard

This project models four parts of the CryLo repository in Dafny and proves what they promise.

* **The wallet window** (`electron/src/app.js`). Amount texts become exact counts of 10^-11 units. A bridge-in
  session cuts the typed total into deposits of at most 50 CRYLO, prints and re-parses each one, requests it from the
  bridge and transfers it; any reply can fail. The same file holds the send-max and gas top-up arithmetic, the vesting
  table, the sorted history and four polling timers whose callbacks overlap.
* **The wallet's main process** (`electron/main.js`). A store of Nexus wallets keyed by a lossy file name, the retry
  loop that waits for an RPC port, and the newest-hundred event list.
* **The translation embedder** (`translations/generate_translations_header.c`). It prints files as hex-escaped adjacent
  C++ string literals with a lookup table; a reader with the C++17 rules for line splicing and literals undoes it.
* **The batch guard** (`src/blockchain_db/locked_txn.h`) over the batch operations of the LMDB back end
  (`src/blockchain_db/lmdb/db_lmdb.cpp`).

Modules follow these parts: `Digits`, `DecimalText`, `JsNumber`, `AtomicUnits` and `Numerals` for numbers and texts;
`BridgeIn`, `WalletAmounts`, `Vesting`, `TxLists` (with `StableSort`) and `Timers` for the window; `NexusBinding` and
`WaitForRpc` for the main process; `TranslationHeader` for the embedder, `CppLiteral` and `HeaderReader` for the C++ that
reads its output, `EmbeddedFiles` for the two together; `LockedTxn` for the guard.

## Modelling choices

* JavaScript numbers are exact rationals. `Number(text)`, `toFixed` and `String(number)` follow sections 7.1.4.1,
  21.1.3.3 and 6.1.6.1.20 of ECMA-262, including hexadecimal, exponents and the switch to exponent form.
* Replies of the bridge, the wallet, the RPC port and the registration service, the address of the open wallet at each
  bridge request, the clock's delays, the moments at which callbacks continue and the wallets the key generator returns
  are arbitrary inputs.
* `Array.prototype.sort` is any sorted and stable result (section 23.1.3.30 of ECMA-262); `StableSortUnique` shows that
  there is only one.
* `batch_stop` has three outcomes, as in the LMDB back end: it stores and closes; it throws before committing and leaves
  the batch open; or its commit fails, and then the batch is closed unsaved and the exception passed on
  (`src/blockchain_db/lmdb/db_lmdb.cpp:3897-3908`). `batch_abort` rolls back, or throws and leaves the batch open.
  `batch_start` answers true exactly when no batch is open, or throws. All are arbitrary in every theorem.
* Bytes are characters below 256. The reader of the header shares no text with the generator: it reads identifiers as
  maximal runs, looks both pointers of a row up among all declared variables, and takes from the printed struct and lookup
  function which of them is compared and which is given back.

## What the code does not do

Five properties one would expect are false of the code. Each has the inputs that break it and the exact condition
under which it holds.

* An accepted total need not be bridged in full, even if every reply succeeds: a last deposit below 10^-6 prints with an
  exponent and is refused after the earlier deposits were sent, and no record of those is stored
  (`BridgedInFull`, `TinyRestStrandsDeposit`).
* A successful wallet creation need not be loadable afterwards, because creation answers with whatever is stored under
  the file name (`CreatedIsLoadable`, `CollidingNames`).
* A poll for a later payment can be stopped by the reply to an earlier one (`EarlierReplyStopsLaterPoll`). It is never
  stopped by anything but its own result or a new poll exactly when, at its start, no callback of an earlier poll of its
  kind is still waiting (`PollSurvivesExactly`).
* Owner and open batch fall out of step exactly when a commit fails inside the back end or a destructor cannot abort
  (`StepKeepsInvariant`). A later scope's commit can then store nothing (`FailedCommitEndsLaterBatch`,
  `OrphanedBatchBlocksAll`): only the scope that opened a batch closes it exactly when no earlier scope still counts
  itself an owner (`OnlyOpenerCloses`), and an open batch can never be closed exactly when it has no owner
  (`NeverClosesExactly`). A batch is all or nothing even then (`AllOrNothing`), and if the guard whose commit failed is
  not called again, the end of its scope puts owner and batch back in step (`ScopeEndRecovers`).
* A generated header does not always give the files back. It does exactly when no file is empty and no name holds a
  quote, a backslash, a newline or a NUL (`HeaderReadsBack`). One such file spoils the table: under plain names, an
  empty file makes the whole header ill-formed and none of the others can be read either.

## Model

| member | source | states |
|---|---|---|
| DecimalText.MatchesExactly | electron/src/app.js:41 | the regular expression accepts exactly the plain decimal grammar, and splitting at the point finds its parts |
| JsNumber.NumberOfPlain | electron/src/app.js:40 | Number of a plain decimal text is exactly the decimal it denotes |
| JsNumber.FixedIsNearest | electron/src/app.js:1543-1544 | toFixed picks the nearest multiple of 10^-places, the larger of two equally near ones |
| JsNumber.FixedTextDenotes | electron/src/app.js:1543-1544 | the toFixed text is a plain decimal with exactly the given number of places, denoting the rounded value |
| JsNumber.RoundTo | electron/src/app.js:1543-1544 | what Number(x.toFixed(places)) yields |
| JsNumber.PrintDenotes | electron/src/app.js:1553 | from 10^-6 up to 10^21 String prints a plain decimal that denotes exactly the number |
| JsNumber.PrintExponentForm | electron/src/app.js:1553 | outside that range the text carries an exponent and is no plain decimal |
| JsNumber.PrintRepresentation | electron/src/app.js:1553 | String depends on the number alone, not on how many zeros its representation ends in |
| JsNumber.NumberOfString | electron/src/app.js:1553 | Number(String(x)) is x for every decimal, with and without exponent |
| AtomicUnits.ParsePlain | electron/src/app.js:38-50 | on every plain decimal text: the exact scaled integer, or which of the errors is raised |
| AtomicUnits.AcceptsExactly | electron/src/app.js:38-50 | a text is accepted if and only if its trim is a plain positive decimal with at most `decimals` places; too many places is reported exactly for positive plain texts with more |
| AtomicUnits.ParseValue | electron/src/app.js:38-50 | an accepted text yields its number times 10^decimals, exactly |
| AtomicUnits.ParseMonotone | electron/src/app.js:38-50 | parsing keeps strict order, and two results are equal exactly when the numbers are |
| AtomicUnits.ParseFixed | electron/src/app.js:38-50 | parsing inverts fixed-point printing for every positive integer and refuses a printed zero |
| AtomicUnits.ParsePrinted | electron/src/app.js:38-50 | parsing inverts String(number) exactly when the number is positive and prints without exponent |
| Numerals.SpaceListed | electron/src/app.js:39-40 | trimming removes exactly the 25 white space and line terminator characters of ECMA-262 |
| Numerals.TrimOf | electron/src/app.js:39 | trimming white space around a text that has none at its ends gives that text |
| Numerals.SpaceIgnored | electron/src/app.js:38-50 | white space around a text changes neither what the parser answers nor what Number reads |
| Numerals.NumberOfNumeral | electron/src/app.js:1527 | Number reads every decimal numeral, with either sign, a missing whole or fractional part and an exponent in any spelling, as exactly its value |
| Numerals.RadixReadsBack | electron/src/app.js:1527 | after 0x, 0o and 0b in either case Number reads the digits of n as n |
| Numerals.NumberTextsExactly | electron/src/app.js:1527 | Number is not NaN exactly on blank texts, Infinity, radix literals and decimal numerals, and infinite exactly on the three spellings of Infinity |
| Numerals.ParseNumeral | electron/src/app.js:38-50 | for every numeral: the exact scaled integer, or which of the three errors is raised |
| Numerals.ParseOtherTexts | electron/src/app.js:38-50 | every text that is no numeral is refused, and with which error |
| BridgeIn.PlanShape | electron/src/app.js:1537-1545 | the deposits sum to the total, all but the last are exactly 50, none exceeds 50, only a zero total has a zero deposit |
| BridgeIn.PlanLength | electron/src/app.js:1541-1545 | the number of deposits is the total divided by 50, rounded up |
| BridgeIn.LastOfPlan | electron/src/app.js:1541-1545 | the last deposit in closed form: the total less one, modulo 50 CRYLO, plus one |
| BridgeIn.CutDeposits | electron/src/app.js:1537-1545 | the loop ends for every total in (0, 150] with at most 3 deposits, which are the plan of the total rounded to 11 places |
| BridgeIn.DepositText | electron/src/app.js:1552-1554 | a deposit of at least 10^-6 survives String and cryloToAtomic unchanged, a smaller one is refused, and Number of the atomic text is exact |
| BridgeIn.SendDeposits | electron/src/app.js:1549-1625 | for all replies and all wallet addresses met on the way: requests, transfers and confirmed deposits follow the plan in order with its amounts, each request with the wallet address of its moment and each transfer with the address of its own request; the run stops at the first failing step, and the record is stored exactly when all were sent |
| BridgeIn.StartBridgeIn | electron/src/app.js:1511-1633 | the same from the typed text; a session that fails the first checks does nothing |
| BridgeIn.TransfersAddressed | electron/src/app.js:1566-1583 | transfer i goes to the integrated address of the reply to request i, to its alias exactly when the field is missing, and never to an empty address |
| BridgeIn.RequestsCarry | electron/src/app.js:1558-1562 | request i carries the Nexus address, the CryLo address of its moment and exactly the units of deposit i |
| BridgeIn.DepositsRecorded | electron/src/app.js:1566-1625 | confirmed deposit i is recorded with the payment id of reply i, the first transaction hash present in the answer to transfer i, and a text that parses to its units; the stored record holds all of them and their ids in order |
| BridgeIn.StopsExactlyWhen | electron/src/app.js:1554-1601 | why a run stops at a deposit: its text is refused below 10^-6, the reply failed or lacks an id or an address in both fields, or the transfer failed |
| BridgeIn.AcceptedExactly | electron/src/app.js:1514-1535 | a numeral starts a session if and only if its value is in (0, 150], a wallet is open and a Nexus address is bound; one with a minus sign never does |
| BridgeIn.OthersRefused | electron/src/app.js:1526-1535 | a text that is neither a numeral nor a radix literal never does |
| BridgeIn.Conservation | electron/src/app.js:1551-1625 | never more than the rounded total is transferred, exactly the total once a record exists, and every amount is at most 50 CRYLO, below 2^53 units |
| BridgeIn.BridgedInFull | electron/src/app.js:1551-1625 | with all replies successful, everything is sent and recorded if and only if the last deposit, (u - 1) mod 50 CRYLO + 1 units of a total of u, is at least 10^-6; otherwise all full deposits are sent and nothing is recorded |
| BridgeIn.TinyRestStrandsDeposit | electron/src/app.js:1551-1625 | 50.0000001 CRYLO: 50 are sent, the run stops, no record |
| BridgeIn.TinyRestIsAccepted | electron/src/app.js:1526-1545 | the text 50.0000001 passes the checks and rounds to that total |
| BridgeIn.AgreesWithDirectParse | electron/src/app.js:1526-1545 | a text that cryloToAtomic accepts is bridged as exactly the same atomic amount |
| WalletAmounts.SendMaxNeverOverspends | electron/src/app.js:998-1003 | with a fee of 2000000000 units: the send-max text is accepted if and only if the balance is at least fee + 50 units and below fee + 10^32; the amount is within 50 units of balance minus fee and below the balance; without a balance the field is left alone |
| WalletAmounts.TopUpCovers | electron/src/app.js:1866-1877 | a top-up is offered exactly when gas is short, and current gas plus top-up lies in [needed + 0.005, needed + 0.005 + 10^-5) |
| WalletAmounts.TopUpTextExact | electron/src/app.js:1877-1895 | the top-up has five places and its text is exact in every unit of at least five decimals, exactly when it is below 10^21 |
| WalletAmounts.TopUpInGasUnits | electron/src/app.js:1866-1895 | in 18-decimal gas units: a top-up is offered exactly when there are fewer units than needed, and current units plus those the printed top-up is read as lie in [needed + 5 * 10^15, needed + 5 * 10^15 + 10^13) |
| Vesting.AddBlock | electron/src/app.js:845-875 | one block adds its two tiers to the totals and its two rows with their unlock heights |
| Vesting.BlocksLeftExact | electron/src/app.js:857-859 | a row is unlocked after exactly as many more blocks as it shows |
| Vesting.LoadVesting | electron/src/app.js:841-876 | the tier totals and rows of all mined blocks |
| Vesting.BlockRows | electron/src/app.js:848-875 | block i has two rows at places 2i and 2i + 1: half of it in tier 1 unlocked at its own height, the rest in tier 2 unlocked 18514 blocks later, with the blocks left |
| Vesting.TiersConserve | electron/src/app.js:848-861 | the tiers sum to what was mined; the vested tier is ahead by the number of odd amounts, between 0 and the number of blocks |
| Vesting.RowsConserve | electron/src/app.js:856-875 | unlocked and locked rows add up to the mined total at every height |
| Vesting.UnlockingIsMonotone | electron/src/app.js:857-859 | the unlocked sum never falls as the height grows |
| Vesting.FullyUnlockedWhen | electron/src/app.js:851-859 | everything is unlocked if and only if the height is 18514 past every block that paid anything |
| Vesting.DisplayedTable | electron/src/app.js:918-919 | the shown rows are a permutation, newest block first, instant before vested, with the same sums |
| Vesting.GetMinedSplitBalances | electron/src/app.js:470-499 | the accumulated split, from the output amounts where present, and its total |
| Vesting.ViewsAgree | electron/src/app.js:470-499 | without output amounts both views give the same two totals |
| Vesting.SplitExact | electron/src/app.js:478-492 | for all transfers: the totals are the sums of the first and second outputs where listed, plus the halves of the other blocks |
| StableSort.SortIsStable | electron/src/app.js:632-638 | a consistent comparator has a sorted stable result |
| StableSort.StableIsPermutation | electron/src/app.js:632-638 | a stable result has the same elements, each as often |
| StableSort.StableSortUnique | electron/src/app.js:632-638 | two sorted stable results are equal |
| TxLists.HistoryOrder | electron/src/app.js:619-638 | the shown history is a permutation of the merged lists, unconfirmed before confirmed, heights never rising, equal heights in merge order |
| TxLists.SafeLogs | electron/main.js:1427-1437 | a failed query adds nothing, unparsable logs are skipped, the rest is appended in order |
| TxLists.CollectLogs | electron/main.js:1425-1499 | all queries together |
| TxLists.CollectedMembers | electron/main.js:1425-1499 | an event is collected if and only if some answered query parsed it |
| TxLists.CollectedCount | electron/main.js:1425-1499 | an event is collected exactly as often as answered queries gave it |
| TxLists.CollectedInOrder | electron/main.js:1425-1499 | events keep the order of the queries and of the logs within them |
| TxLists.NewestHundred | electron/main.js:1534-1536 | min(100, n) events, newest block first, with the dropped ones exactly all collected; no dropped event is newer than a kept one |
| TxLists.NexusHistory | electron/main.js:1425-1536 | collecting, sorting and slicing together: every shown event was parsed from an answered query, newest block first, and an event some query gave is missing only if a hundred are shown, none from an earlier block |
| Timers.AppTimers.OpenMainScreen | electron/src/app.js:358-372 | both window intervals are replaced |
| Timers.AppTimers.SwitchWallet | electron/src/app.js:985-992 | both window intervals are cleared |
| Timers.AppTimers.PollBridgeReleaseStatus | electron/src/app.js:1395-1399 | the release poller is replaced unless there is no hash to poll |
| Timers.AppTimers.PollCryLoBridgeStatus | electron/src/app.js:1637-1640 | the bridge-in poller is replaced |
| Timers.AppTimers.OnReply | electron/src/app.js:1640-1651 | a callback that finds its work done stops whatever its variable holds |
| Timers.OneLiveInterval | electron/src/app.js:1393-1409 | under every interleaving each kind has at most one live interval, the one in its variable, and null means none |
| Timers.SwitchStopsBoth | electron/src/app.js:985-992 | switching leaves no refresh or block interval live and keeps the bridge pollers |
| Timers.StoppedExactlyBy | electron/src/app.js:1637-1651 | the single steps that stop a live poller, if and only if |
| Timers.StartedExactlyBy | electron/src/app.js:358-372 | a step puts a new live interval into the variable of a kind if and only if it is the one that starts it: opening the screen for refresh and blocks, a poll for its own kind |
| Timers.StoppedForGood | electron/src/app.js:1637-1651 | over every run an interval that is not live never fires again |
| Timers.CallbacksConserved | electron/src/app.js:1640-1651 | over every run each firing of an interval goes on once or is still waiting, and nothing else goes on |
| Timers.PollSurvivesExactly | electron/src/app.js:1637-1651 | for both bridge pollers: through every run without a new poll of the kind and without a done reply of its own callback, a poll stays live, if and only if no callback of an earlier poll of the kind is waiting at its start |
| Timers.EarlierReplyStopsLaterPoll | electron/src/app.js:1640-1651 | a reply to a first payment leaves a later payment without a poller |
| NexusBinding.SafeFileName | electron/main.js:348-350 | only letters, digits and underscores remain |
| NexusBinding.SafeNameFixed | electron/main.js:348-350 | a name is kept if and only if it has only those, so two such names never collide |
| NexusBinding.SafeNameUnits | electron/main.js:348-350 | wherever it stands, a letter or digit is kept and every UTF-16 unit of another character becomes an underscore |
| NexusBinding.NexusWallets.HandleCreate | electron/main.js:371-415 | the store and the reply after every kind of create call |
| NexusBinding.NexusWallets.HandleLoad | electron/main.js:417-442 | the address shown for a wallet |
| NexusBinding.NexusWallets.OpenBound | electron/main.js:444-469 | the signing key, or which check refused |
| NexusBinding.CreateAnswers | electron/main.js:371-415 | create answers with an address if and only if a wallet is open and registration succeeds or the stored address is empty; which address, and both flags |
| NexusBinding.BindingIsFirstCreate | electron/main.js:371-415 | over every run a file keeps its record, and otherwise holds that of the first create under its name |
| NexusBinding.RunKeepsOneKeyPerFile | electron/main.js:394-402 | over every run exactly one key is generated per stored file and none besides |
| NexusBinding.LoadShowsFirstBinding | electron/main.js:417-469 | load shows an address if and only if the first create under the file name was for this CryLo address; the signing wallet opens on exactly those inputs, with the same record, and otherwise which check refuses |
| NexusBinding.CreatedIsLoadable | electron/main.js:379-391 | after a successful create, load shows the answered address, now and after any later calls, if and only if no earlier create under the file name was for another CryLo address |
| NexusBinding.CollidingNames | electron/main.js:348-391 | wallets "a b" and "a_b": the second create is answered with the first wallet's address, which load does not show |
| NexusBinding.FailedRegistrationKeepsBinding | electron/main.js:396-414 | a create whose registration fails reports an error and still leaves its address and key for good |
| WaitForRpc.Wait | electron/main.js:200-220 | resolves only on an answer, gives up only on a failure past maxMs or on shutdown, at most floor(maxMs / 1000) + 2 attempts |
| WaitForRpc.ResultDetermined | electron/main.js:206-217 | these conditions leave one possible outcome and number of attempts |
| WaitForRpc.BoundIsReached | electron/main.js:206-217 | a port that never answers and never delays gets exactly that many attempts |
| WaitForRpc.ReplyTimeSum | electron/main.js:204-217 | attempt k is answered after the sum of all delays and late timers up to it and k pauses of 1000 ms |
| CppLiteral.PrintBytes | translations/generate_translations_header.c:56-64 | the loop prints each byte as a two-digit escape, sixteen to a literal |
| CppLiteral.EscapeDigits | translations/generate_translations_header.c:63 | an escape is a backslash, an x and two lower-case hexadecimal digits |
| CppLiteral.PrintedLine | translations/generate_translations_header.c:56-64 | up to sixteen bytes make one literal on its own line |
| CppLiteral.PrintedLines | translations/generate_translations_header.c:56-64 | after sixteen bytes the literal is closed and the rest is printed as if it stood alone |
| CppLiteral.LexClosed | translations/generate_translations_header.c:55-65 | for every non-empty byte sequence, lexing the printed literals with maximal munch and concatenating gives back exactly the bytes |
| CppLiteral.EmptyDataIllFormed | translations/generate_translations_header.c:56-65 | for an empty file the printed text is ill-formed, whatever follows |
| CppLiteral.NameReadsBackExactly | translations/generate_translations_header.c:54 | a printed name reads back as itself if and only if it has no quote, backslash or newline |
| CppLiteral.OnlyCleanNamesSurvive | translations/generate_translations_header.c:54 | whatever a printed name is read as, it is as long as the name only if the name is clean |
| CppLiteral.SpliceShortens | translations/generate_translations_header.c:54 | line splicing either shortens a text or leaves it as it is |
| EmbeddedFiles.NamesDeclaredExactly | translations/generate_translations_header.c:49-68 | the declarations can be read with every name in its own variable if and only if no file is empty and no name has a quote, backslash, newline or NUL |
| TranslationHeader.Generate | translations/generate_translations_header.c:37-87 | the whole header when every file opens, otherwise what was written before the first that does not |
| TranslationHeader.OpenedFiles | translations/generate_translations_header.c:48-68 | the files written are exactly those before the first that does not open, in order |
| EmbeddedFiles.HeaderReadsBack | translations/generate_translations_header.c:25-82 | the header as C++ reads it, through its declarations, rows, struct fields and lookup, gives all files back in order and byte for byte, if and only if no file is empty and no name has a quote, backslash, newline or NUL; with plain names and an empty file it is ill-formed |
| EmbeddedFiles.TableAsPrinted | translations/generate_translations_header.c:70-80 | whatever the names do to the declarations before it, a table of as many rows as files at the end of the header is the one printed there |
| TranslationHeader.SpliceHeader | translations/generate_translations_header.c:45-82 | line splicing turns the header into that of the files with spliced names |
| EmbeddedFiles.FindEmbeddedFile | translations/generate_translations_header.c:25-35 | the emitted lookup finds the first file with the name, and fails exactly when there is none |
| EmbeddedFiles.EmbedAndFind | translations/generate_translations_header.c:25-87 | generate, read and look up: an embeddable file is found under its name, byte for byte, the first of that name; there is no header when a file does not open |
| LockedTxn.BlockchainDb.BatchStart | src/blockchain_db/lmdb/db_lmdb.cpp:3803-3844 | the state after each of its outcomes, and whether it threw; true exactly when this call opened the batch |
| LockedTxn.BlockchainDb.BatchStop | src/blockchain_db/lmdb/db_lmdb.cpp:3883-3910 | the state after each of its outcomes, and whether it threw |
| LockedTxn.BlockchainDb.BatchAbort | src/blockchain_db/lmdb/db_lmdb.cpp:3912-3933 | the state after each of its outcomes, and whether it threw |
| LockedTxn.BlockchainDb.Write | src/blockchain_db/lmdb/db_lmdb.cpp:472-496 | inside a batch a write stays in it, outside it is stored at once |
| LockedTxn.LockedTXN.Construct | src/blockchain_db/locked_txn.h:41-44 | there is a guard exactly when batch_start did not throw; it is active and has a batch exactly when none was open |
| LockedTxn.LockedTXN.Commit | src/blockchain_db/locked_txn.h:45 | only an active owner stops the batch, and it stays active if that throws |
| LockedTxn.LockedTXN.Abort | src/blockchain_db/locked_txn.h:46-47 | the same for abort and the destructor |
| LockedTxn.StepKeepsInvariant | src/blockchain_db/locked_txn.h:41-47 | at most one scope owns a batch and one does exactly when a batch is open; every step keeps this except exactly a commit that fails in the back end and a destructor that cannot abort |
| LockedTxn.RunKeepsInvariant | src/blockchain_db/locked_txn.h:41-47 | a run keeps this throughout if and only if none of its steps is one of those two |
| LockedTxn.BatchIsolated | src/blockchain_db/locked_txn.h:35-47 | from any state with an open batch, until some owner closes it, the database is a function of the writes alone, the disk is as it was, and no scope becomes an owner |
| LockedTxn.RunKeepsSaved | src/blockchain_db/locked_txn.h:41-47 | over every run, with every fault, nothing is unsaved outside a batch |
| LockedTxn.AllOrNothing | src/blockchain_db/locked_txn.h:41-47 | from any state without an open batch, also after earlier failed commits, a batch stores all its writes if the step that closes it is a commit that stores, otherwise the database is as before |
| LockedTxn.DiskHistory | src/blockchain_db/lmdb/db_lmdb.cpp:472-496 | over every run, with every fault, the disk holds in order the writes made outside batches and those of the batches that were stored, and an open batch sees in addition exactly its own |
| LockedTxn.UnscopedWrites | src/blockchain_db/lmdb/db_lmdb.cpp:472-496 | without a scope every write is stored at once |
| LockedTxn.StepOutside | src/blockchain_db/locked_txn.h:41-47 | while no batch is open, calls of any guard change nothing, a stale one included |
| LockedTxn.ClosedByOpenerOrStale | src/blockchain_db/locked_txn.h:41-47 | the step that closes a batch acts for the scope that opened it or for one that counted itself an owner before |
| LockedTxn.OnlyOpenerCloses | src/blockchain_db/locked_txn.h:41-47 | over all bodies and faults, only the opener closes its batch if and only if no scope counted itself an owner before |
| LockedTxn.InnerScopesInert | src/blockchain_db/locked_txn.h:35-47 | two bodies with the same writes leave the same database, whatever their inner scopes do, from any state with an open batch |
| LockedTxn.RetiredStaysInert | src/blockchain_db/locked_txn.h:45-47 | a guard that has ended or never had a batch is still there and unchanged until its scope ends, and all its calls do nothing |
| LockedTxn.FailedCommitEndsLaterBatch | src/blockchain_db/locked_txn.h:45-46 | after a failed commit, aborting the same guard ends a later scope's batch, whose own commit then stores nothing |
| LockedTxn.FailedCommitIsAbort | src/blockchain_db/locked_txn.h:45-46 | if the guard is not called again, a run after a failed commit and the same run after an abort have the same database throughout the scope |
| LockedTxn.ScopeEndRecovers | src/blockchain_db/locked_txn.h:45-47 | then the end of that scope, however its destructor fares, restores the invariant and the whole state an abort would have led to |
| LockedTxn.OrphanedBatchBlocksAll | src/blockchain_db/locked_txn.h:46-47 | after a destructor that could not abort, the batch stays open in every run and no scope stores anything again |
| LockedTxn.NeverClosesExactly | src/blockchain_db/locked_txn.h:41-47 | no run closes an open batch if and only if no scope owns it |

## Left out

- IEEE-754 rounding: numbers are exact, so sums of parts of a total have no rounding error in the model.
- Timers: the mining and consolidation intervals, which the source does not keep to one at a time.
- Timers: what the callbacks display and the removal of the pending bridge record by them.
- BridgeIn: the creation time in the record and the status texts; two sessions started at the same time.
- WalletAmounts.TopUpTextExact: reads the text with the wallet's own parser, because the contract library's parser is not part of this model.
- WalletAmounts.TopUpInGasUnits: the same, for the reading of the text; its bounds on the amount do not depend on a parser.
- HeaderReader: accepts the layout of one declaration or row to a line, not C++ in general; universal character names and literal prefixes are not covered.
- TranslationHeader.Generate: does not model overflow of the `int` counter, for files of 2^31 bytes or more.
- NexusBinding: a write that fails half-way, corrupt JSON, and file systems that ignore case.
- TxLists: the amount texts of the event list, among them gas amounts printed with 11 decimals.
- Contract calls (stake, unstake, approve, burn, buyback, node registration): thin wrappers over code outside the repository.
- User interface, dialogs, logging, process management and the rest of the daemon.
