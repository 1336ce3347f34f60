# Bank server and ATM client: a Dafny model

This project models the request-handling core of a small bank server (`bank_server.py`)
and the protocol side of its ATM client (`atm_client.py`):

- **Validation** and **Text**: the server's format checks (`acctNumberIsValid`,
  `acctPinIsValid`, `amountIsValid`, `as_numeric`). It covers the part of Python's
  `float()` and `str()` these checks use, including the ASCII whitespace `float()` trims
  from its argument. It also covers the string operations the code relies on (`split`,
  `split(maxsplit=1)`, `lower`, `replace`).
- **Utf8**: the strict UTF-8 codec used by `encode()` and `decode()` on the wire.
- **Ledger**: account values (`BankAccount`), their deposit and withdrawal transitions,
  `get_acct`, `load_account` and the line loop of `load_all_accounts`, as functions.
- **Dispatch**: `process_request`, `login`, `mark_busy`, `unmark_busy`, `get_bal`,
  `deposit` and `withdraw`, as functions on a World. The World holds the account table
  (`ALL_ACCOUNTS`) and the lock registry (`ACTIVE_ACCOUNTS`).
- **Connection**: one call of `service_connection` on a session record
  `{inb, outb, auth}`. The received chunk and the number of bytes the transport accepts
  are parameters.
- **Server**: the imperative form of Ledger, Dispatch and Connection. It calls the
  Validation, Text and Utf8 functions as they are.
  - `BankAccount` has the fields `acctNumber`, `acctPin` and `acctBalance`.
  - `Bank` owns the account table and the lock map.
  - `Session` has the fields `addr`, `inb`, `outb` and `auth`.
  - Each method's postcondition ties the new state to the value-level definitions.
- **Atm**: the client's format checks, the request frames it sends, the decoding in
  `get_from_server` and the status mapping of `login_to_server`.
- **Responses** and **Wire**: both ends together.
  - Every response the server queues decodes on the client to one of the six status codes.
  - Login and balance answers reach the client as the server meant them.
  - Each client frame reaches the handler it names.
- **Scenario**: concrete runs.
  - A walk-through of one account from login to an empty balance.
  - Two-session runs showing what the re-login at bank_server.py:322-323 does to the locks.

Balances are integer cents and amounts are exact decimals `Decimal(units, places)`.
`None` from `as_numeric` is `Option.None`. Passing it on to `amountIsValid` raises an
uncaught TypeError, which the model writes as the `Crash` outcome. A crash ends the
whole server.

The server classes follow the code as written, including the two defects listed under
"## Findings". The corrected definitions are given beside them, with the intended
property proved. Some of the code's behaviour is worth knowing before reading the
contracts:

- An unknown command falls through to `return '400'` (bank_server.py:306).
- Closing a connection releases the lock of the session's `auth` account
  (bank_server.py:256-258), not every lock its address holds.
- A login with the right PIN to an account that is held answers `300` and the holder's
  address (bank_server.py:314-317), even when this same session is the holder.
- The request is everything before the last terminator in `inb` (bank_server.py:252),
  not the first frame. Two frames arriving in one read reach `process_request` as one
  text (`Connection.ReceiveBatched`).
- Re-login calls `unmark_busy` on the account just locked, not on the one held before
  (bank_server.py:322-323).
- An amount `float()` cannot parse reaches `amountIsValid` as `None` and raises an uncaught
  TypeError (bank_server.py:46-49, 357, 369), which ends the server.

## Model

| member | source | states |
|---|---|---|
| Validation.AcctNumberIsValid | bank_server.py:26-34 | the definition of `acctNumberIsValid`: length 8, `isalpha()` of the first two characters, '-' third, `isdigit()` of the last five; its shape is stated by `AcctNumberShape` |
| Validation.AcctPinIsValid | bank_server.py:36-40 | the definition of `acctPinIsValid`: four characters, `isdigit()`; compared with the client's check by `Atm.PinCheck` |
| Validation.AmountIsValid | bank_server.py:42-50 | the definition of `amountIsValid` on a number: `round(amount, 2) == amount` (no digit past the cents) and `amount >= 0`; the cents it denotes are stated by `ValidAmountCents` |
| Validation.AsNumeric | bank_server.py:52-58 | the definition of `as_numeric`: `float()` of a decimal literal after the whitespace trim, None where `float()` raises ValueError; stated on literals by `ParseWholeLiteral` and `ParsePointLiteral` |
| Validation.FloatText | bank_server.py:349 | the definition of `str()` of a balance held in cents: whole part, '.', then the cents without trailing zeros (at least one digit); it parses back by `CentsTextParses` |
| Validation.AcctNumberShape | bank_server.py:26-34 | an account number is valid exactly when it has 8 characters: two letters, '-', then five digits |
| Validation.CentsValue | bank_server.py:50 | a decimal that `round(x, 2)` keeps is worth exactly `Cents(d)` hundredths: `Cents(d) * 10^places == units * 100` |
| Validation.ValidAmountCents | bank_server.py:42-50 | a valid amount is a non-negative whole number of cents, worth exactly `Cents(d)` hundredths |
| Validation.ParsePointLiteral | bank_server.py:52-58 | `as_numeric("W.F")` with digits W and F is exactly the decimal W.F |
| Validation.ParseWholeLiteral | bank_server.py:52-58 | `as_numeric("W")` with digits W is exactly the whole number W |
| Validation.CentsTextParses | bank_server.py:349 | the printed balance parses back with `as_numeric` to a valid amount of exactly the stored cents |
| Text.NatTextValue | bank_server.py:349 | the digits printed for a whole number read back as that number |
| Text.StripEnds | bank_server.py:56 | the trim `float()` applies removes a whitespace prefix and a whitespace suffix and nothing else, and neither end of what is left is whitespace |
| Text.StripStartSuffix | bank_server.py:56 | trimming the front leaves a suffix of the text, and everything cut off is whitespace |
| Text.StripEndPrefix | bank_server.py:56 | trimming the back leaves a prefix of the text, and everything cut off is whitespace |
| Text.StripNoSpace | bank_server.py:56 | stripping a text without whitespace leaves it as it is |
| Text.JoinSplit | bank_server.py:287 | joining the parts of `split(sep)` with sep gives back the text; there is one part exactly when sep does not occur |
| Text.SplitJoin | bank_server.py:287 | splitting a join of sep-free parts gives back those parts |
| Text.SplitAfter | bank_server.py:287 | a sep-free head followed by sep splits into the head and the split of the rest |
| Text.SplitOnce | atm_client.py:38 | `split(" ", maxsplit=1)` gives one or two parts, the first free of sep, that join back to the text; one part exactly when sep is absent |
| Text.SplitOnceAt | atm_client.py:38 | a sep-free head, sep and any tail split once into exactly head and tail |
| Text.Lower | bank_server.py:146 | `lower()` keeps the length and maps exactly the capital letters to small ones |
| Text.Remove | bank_server.py:146 | `replace(" ", "")` leaves no space, never lengthens, and keeps a text without spaces |
| Text.RemoveConcat | bank_server.py:146 | removal distributes over concatenation, so it works character by character and keeps the order |
| Text.RemoveChar | bank_server.py:146 | a single character is dropped exactly when it is the removed one, and kept otherwise |
| Utf8.EncodeConcat | bank_server.py:254 | encoding distributes over concatenation |
| Utf8.EncodeAscii | atm_client.py:22 | ASCII text encodes to one byte per character, its code point |
| Utf8.DecodeEncodeChar | atm_client.py:37 | decoding the bytes of one character gives that character and its byte count, whatever follows |
| Utf8.DecodeEncode | atm_client.py:37 | strict decoding of encoded text gives the text back |
| Ledger.NewAccount | bank_server.py:66-73 | the definition of `BankAccount.__init__`'s effect: an invalid PIN keeps the default '', an invalid balance the default 0 |
| Ledger.DepositTxn | bank_server.py:75-85 | the definition of `deposit`'s code and new balance; stated by `DepositOutcome` |
| Ledger.WithdrawTxn | bank_server.py:87-101 | the definition of `withdraw`'s code and new balance; stated by `WithdrawOutcome` |
| Ledger.DepositTxnFixed | bank_server.py:42-50 | the corrected deposit, with `amountIsValid` false on a non-number; related to `DepositTxn` by `FixedTxnsAgree` |
| Ledger.WithdrawTxnFixed | bank_server.py:42-50 | the corrected withdrawal, with `amountIsValid` false on a non-number; related to `WithdrawTxn` by `FixedTxnsAgree` |
| Ledger.LoadAccount | bank_server.py:111-130 | the definition of `load_account`: whether it loaded and the table after; stated by `LoadAccountInserts` |
| Ledger.ParseLine | bank_server.py:142-149 | the classification of one line: a comment, a line without three comma-separated fields after `lower()` and removing spaces, or the three fields |
| Ledger.LoadLine | bank_server.py:142-150 | the definition of one pass of the loop body: comments and malformed lines leave the table, a record runs `load_account` |
| Ledger.LoadLines | bank_server.py:137-150 | the definition of the loop over what successive `readline()` calls return, stopping at the empty string; stated by `LoadLinesKeepsExisting`, `LoadLinesSound`, `LoadLinesSplit` and `FirstOccurrenceWins` |
| Ledger.DepositOutcome | bank_server.py:75-85 | deposit crashes exactly on a non-number; an invalid amount returns 1 and keeps the balance; a valid one returns 0 and adds exactly the amount |
| Ledger.WithdrawOutcome | bank_server.py:87-101 | withdraw crashes exactly on a non-number; returns 1 for an invalid amount and 2 for more than the balance, both keeping it; otherwise returns 0 and subtracts exactly the amount; a non-negative balance stays non-negative |
| Ledger.WithdrawUndoesDeposit | bank_server.py:75-101 | withdrawing the amount just deposited restores the balance |
| Ledger.FixedTxnsAgree | bank_server.py:42-50 | with `amountIsValid` returning False on a non-number, a non-number is code 1 with the balance kept; on numbers the corrected transitions equal the ones as written |
| Ledger.GetAcct | bank_server.py:103-109 | `get_acct` finds an account exactly when the number is well formed and in the table, and returns that account |
| Ledger.LoadAccountInserts | bank_server.py:111-130 | loading inserts exactly when the balance is a number and the account number is valid and not yet present; otherwise the table is unchanged |
| Ledger.LoadAccountSound | bank_server.py:111-130 | loading keeps every key a valid account number and every balance non-negative |
| Ledger.LoadLinesKeepsExisting | bank_server.py:133-152 | the load loop never changes or removes an account already in the table |
| Ledger.LoadLinesSound | bank_server.py:133-152 | the load loop keeps the table sound |
| Ledger.LoadLinesSplit | bank_server.py:137-150 | loading a prefix of the lines and then the rest is loading them all |
| Ledger.FirstOccurrenceWins | bank_server.py:120-127 | the first line that loads an account number decides that account; later lines with that number are ignored |
| Dispatch.Process | bank_server.py:274-306 | the definition of `process_request`: split on single spaces, '400' on too few tokens, '400 Unknown Account Number' for an account not in the table, then the four commands, '400' for any other; stated by `ProcessRejects`, `ProcessKeepsLocks`, `ProcessKeepsLedger`, `ProcessAuth` and the route lemmas |
| Dispatch.Login | bank_server.py:308-328 | the definition of `login` as written, including line 323; stated by `LoginRefused`, `FirstLogin` and `ReLoginLosesLock` |
| Dispatch.LoginFixed | bank_server.py:321 | the corrected `login`, which frees the account held before re-login; stated by `LoginFixedHolds` |
| Dispatch.GetBal | bank_server.py:343-349 | the definition of `get_bal`: '401' for an account other than `auth`, else '200\n' and the printed balance; stated by `BalanceReply` and `Unauthorised` |
| Dispatch.Deposit | bank_server.py:351-361 | the definition of `deposit`: '401', or the status of `DepositTxn` and its balance; stated by `DepositReply` |
| Dispatch.Withdraw | bank_server.py:363-375 | the definition of `withdraw`: '401', or the status of `WithdrawTxn` and its balance; stated by `WithdrawReply` |
| Dispatch.MarkBusy | bank_server.py:331-335 | the account is held by the given address afterwards and no other entry changes |
| Dispatch.UnmarkBusy | bank_server.py:337-341 | the account is free afterwards, no other entry changes, and an absent account leaves the registry as it was |
| Dispatch.SetBalance | bank_server.py:84 | setting a balance changes only that account's balance, keeping its PIN, the other accounts and the locks |
| Dispatch.ProcessRejects | bank_server.py:286-306 | too few tokens answers '400'; an unknown account answers '400 Unknown Account Number' before any command logic; an unknown command answers '400'; none of them change the world or the session |
| Dispatch.Unauthorised | bank_server.py:343-375 | BALANCE, DEPOSIT or WITHDRAW on an account other than the session's answers '401' and changes nothing |
| Dispatch.CrashOnlyOnNonNumber | bank_server.py:46-58 | a request crashes exactly when it is a DEPOSIT or WITHDRAW by the logged-in session whose amount `AsNumeric` rejects (decimal literals only; see "## Left out" for the forms `float()` accepts and the model does not) |
| Dispatch.LoginRefused | bank_server.py:313-317 | a wrong PIN answers '405'; a right PIN on a held account answers '300\n' and the holder, whoever holds it; neither changes anything |
| Dispatch.FirstLogin | bank_server.py:318-326 | a first login answers '200', locks the account to the address, authorises the session, and the session then holds its lock |
| Dispatch.ReLoginLosesLock | bank_server.py:320-325 | as written, re-login from A to a free B answers '200' and authorises B, yet leaves A locked and B free, so the session no longer holds a lock |
| Dispatch.LoginFixedHolds | bank_server.py:321 | the login the comment describes keeps the session holding its lock, frees the old account and touches no other lock |
| Dispatch.BalanceReply | bank_server.py:343-349 | the logged-in BALANCE answers '200\n' followed by the printed balance |
| Dispatch.DepositReply | bank_server.py:351-361 | logged-in DEPOSIT: code 0 answers '200' and adds the amount; otherwise '400 Invalid Deposit Amount' and nothing changes |
| Dispatch.WithdrawReply | bank_server.py:363-375 | logged-in WITHDRAW: 1 answers '400 Invalid Withdrawl Amount', 2 answers '403', both changing nothing; 0 answers '200' and subtracts the amount |
| Dispatch.ProcessKeepsLocks | bank_server.py:308-341 | as written, no request frees or reassigns a lock held before it; at most the named account gains a lock, held by the caller's address |
| Dispatch.ProcessKeepsLedger | bank_server.py:274-375 | a request keeps the table's accounts and PINs, keeps balances non-negative, and changes only the logged-in account's balance |
| Dispatch.ProcessAuth | bank_server.py:325 | the session's `auth` changes only by a successful LOGIN, and only to an existing account |
| Dispatch.SplitSpaceless | bank_server.py:287-289 | a space-free command and arguments split back into themselves |
| Dispatch.LoginRoute | bank_server.py:287-294 | `LOGIN acct pin` with space-free tokens runs `login` with that account and PIN |
| Dispatch.BalanceRoute | bank_server.py:287-297 | `BALANCE acct` with a space-free account runs `get_bal` on it |
| Dispatch.DepositRoute | bank_server.py:287-300 | `DEPOSIT acct amount` with space-free tokens runs `deposit` with that amount text |
| Dispatch.WithdrawRoute | bank_server.py:287-303 | `WITHDRAW acct amount` with space-free tokens runs `withdraw` with that amount text |
| Connection.IsComplete | bank_server.py:269-272 | the definition of `is_complete`: the bytes contain `\n\n` somewhere; `RFind` is -1 exactly when it is false |
| Connection.Receive | bank_server.py:247-260 | the definition of the read half: an empty read closes and unmarks `auth`, otherwise accumulate and, once complete, dispatch up to the last terminator; stated by `ReceivePartial`, `ReceiveComplete` and `ReceiveClose` |
| Connection.Send | bank_server.py:261-265 | the definition of the write half: send what the transport accepts and drop it from `outb`; stated by `SendDrops` |
| Connection.Service | bank_server.py:239-267 | the definition of one `service_connection` call: the read half if readable, then the write half if writable, still open and `outb` non-empty; stated by `ServiceSendsOnlyQueued` and `ServiceKeepsOrder` |
| Connection.RFind | bank_server.py:252 | `rfind(b'\n\n')` is the start of the last terminator, or -1 exactly when there is none |
| Connection.ReceivePartial | bank_server.py:249-251 | a non-empty read without a terminator only accumulates into `inb` |
| Connection.ReceiveComplete | bank_server.py:251-255 | with a terminator, the request is `inb` up to its last terminator, `inb` is emptied and `outb` grows by exactly the response frame; a crash keeps the accumulated `inb` (the old buffer plus the chunk), `outb` and `auth` |
| Connection.ReceiveClose | bank_server.py:256-258 | an empty read closes the session and releases its `auth` lock and nothing else: the locked accounts afterwards are exactly the old ones less `auth`, each with its old holder, and the session and ledger are unchanged |
| Connection.SendDrops | bank_server.py:261-265 | the bytes sent followed by those kept are the old `outb`; as many are sent as the transport accepts |
| Connection.ServiceSendsOnlyQueued | bank_server.py:261-263 | nothing is sent on a socket that is not writable or once the session is closed |
| Connection.ServiceKeepsOrder | bank_server.py:247-267 | what a step sends, followed by what stays queued, is what was queued after the read |
| Connection.RFindFrame | bank_server.py:252 | in bytes ending with one terminator, the last terminator is that one |
| Connection.EncodeTerminated | bank_server.py:254 | a response plus '\n\n' encodes as the response's bytes plus two newline bytes |
| Connection.ReceiveWholeFrame | bank_server.py:247-255 | one whole frame received into an empty buffer dispatches exactly the frame's text |
| Connection.ReceiveBatched | bank_server.py:252 | two frames in one read reach `process_request` as one text joined by the first terminator |
| Server.BankAccount.constructor | bank_server.py:66-73 | invalid arguments keep the class defaults; the PIN and balance are `NewAccount` of the arguments |
| Server.BankAccount.Deposit | bank_server.py:75-85 | returns the code and sets the balance as `DepositTxn` says, crashing on a non-number |
| Server.BankAccount.Withdraw | bank_server.py:87-101 | returns the code and sets the balance as `WithdrawTxn` says, crashing on a non-number |
| Server.Bank.constructor | bank_server.py:14-15 | the bank starts with no accounts and no locks |
| Server.Bank.GetAcct | bank_server.py:103-109 | returns the account object exactly when `Ledger.GetAcct` finds one, and it carries that account's values |
| Server.Bank.LoadAccount | bank_server.py:111-130 | the result and the new table are those of `Ledger.LoadAccount` |
| Server.Bank.LoadAllAccounts | bank_server.py:133-152 | the loop leaves the table `LoadLines` of the old table and the lines |
| Server.Bank.LoadLine | bank_server.py:142-150 | one line: comments and lines without three fields are skipped, otherwise `load_account` runs on the lowered, space-free fields |
| Server.Bank.MarkBusy | bank_server.py:331-335 | the lock map becomes `Dispatch.MarkBusy` of the old one |
| Server.Bank.UnmarkBusy | bank_server.py:337-341 | the lock map becomes `Dispatch.UnmarkBusy` of the old one |
| Server.Bank.Login | bank_server.py:308-328 | the response, lock map and session `auth` are those of `Dispatch.Login` |
| Server.Bank.GetBal | bank_server.py:343-349 | the response is `Dispatch.GetBal` of the state |
| Server.Bank.BalanceSet | bank_server.py:84 | changing one account object's balance is `SetBalance` on the state |
| Server.Bank.DepositReq | bank_server.py:351-361 | the outcome and new state are those of `Dispatch.Deposit` |
| Server.Bank.WithdrawReq | bank_server.py:363-375 | the outcome and new state are those of `Dispatch.Withdraw` |
| Server.Bank.ProcessRequest | bank_server.py:274-306 | the outcome, new state and `auth` are those of `Dispatch.Process` for the session's address |
| Server.Session.constructor | bank_server.py:235 | a session starts with empty buffers and no `auth` |
| Server.Session.Receive | bank_server.py:247-260 | the read half leaves the status, bank state and session record that `Connection.Receive` gives |
| Server.Session.Respond | bank_server.py:251-255 | a complete buffer is dispatched up to its last terminator, then the buffer is emptied and the frame queued, or the step crashes |
| Server.Session.Service | bank_server.py:239-267 | one step leaves the status, bank state, session record and sent bytes that `Connection.Service` gives |
| Atm.ValidAcctNumber | atm_client.py:178-189 | the definition of `validAcctNumber`; agreement with the server shown by `SameAccountCheck` |
| Atm.ValidPin | atm_client.py:191-196 | the definition of `validPin`; agreement with the server shown by `PinCheck` |
| Atm.LoginRequest | atm_client.py:52 | the LOGIN frame; it reaches `login` by `Wire.LoginRequestArrives` |
| Atm.DepositRequest | atm_client.py:90 | the DEPOSIT frame; it reaches `deposit` by `Wire.DepositRequestArrives` |
| Atm.BalanceRequest | atm_client.py:101 | the BALANCE frame; it reaches `get_bal` by `Wire.BalanceRequestArrives` |
| Atm.WithdrawRequest | atm_client.py:126 | the WITHDRAW frame; it reaches `withdraw` by `Wire.WithdrawRequestArrives` |
| Atm.GetFromServer | atm_client.py:37-42 | the definition of the decode in `get_from_server`: None where Python raises (bytes that are not UTF-8, no second line), else the code before the first space and the second line; stated by `DecodeLines`, `StatusCode` and `Wire.KnownResponseDecodes` |
| Atm.SameAccountCheck | atm_client.py:178-189 | the client accepts exactly the account numbers the server accepts |
| Atm.PinCheck | atm_client.py:191-196 | a PIN is valid exactly when it is four digits, on the client as on the server |
| Atm.LoginResult | atm_client.py:50-60 | validated exactly for '200' and '300'; the busy address is given exactly for '300' and is the payload |
| Atm.DecodeLines | atm_client.py:37-42 | the decoded payload is the second line; the code is the first line up to its first space |
| Atm.StatusCode | atm_client.py:38-39 | the debug text after the space is dropped; a line without a space is the code itself |
| Responses.FixedResponsesKnown | bank_server.py:290-375 | every fixed response string has the shape of a status line |
| Responses.PayloadKnown | bank_server.py:317 | a code, a newline and a one-line payload is a well-shaped response |
| Wire.PayloadFrameDecodes | bank_server.py:254 | a frame with a payload line decodes on the client to its code and that payload |
| Wire.BareFrameDecodes | bank_server.py:290 | a frame without a payload decodes to its code, debug text dropped, and the empty payload |
| Wire.FloatTextOneLine | bank_server.py:349 | a printed balance is a single line |
| Wire.ProcessResponsesKnown | bank_server.py:274-375 | every response the server gives is a status code alone, with a note or with one payload line |
| Wire.KnownResponseDecodes | atm_client.py:37-42 | such a response decodes to its code and its payload line, if any |
| Wire.ResponsesDecode | bank_server.py:254 | every response the server queues decodes on the client to one of the six status codes |
| Wire.LoginEndToEnd | atm_client.py:44-60 | the client's reading of the server's login answer: validated exactly when the PIN is right, busy address exactly when the account was held |
| Wire.BalanceEndToEnd | atm_client.py:98-104 | the client receives '200' and the balance text, which parses back to exactly the stored cents |
| Wire.BalanceTextParses | bank_server.py:349 | a non-negative balance, printed, parses back to itself |
| Wire.LoginRequestArrives | atm_client.py:52 | the client's LOGIN frame, received whole, runs `login` with that account and PIN |
| Wire.BalanceRequestArrives | atm_client.py:101 | the client's BALANCE frame, received whole, runs `get_bal` on that account |
| Wire.DepositRequestArrives | atm_client.py:90 | the client's DEPOSIT frame, received whole, runs `deposit` with that amount text |
| Wire.WithdrawRequestArrives | atm_client.py:126 | the client's WITHDRAW frame, received whole, runs `withdraw` with that amount text |
| Scenario.Walkthrough | bank_server.py:274-375 | on ab-12345 with PIN 1234 and 100.00: LOGIN '200', DEPOSIT 50 '200', BALANCE '200\n150.0', WITHDRAW 200 '403', WITHDRAW 150.0 '200', BALANCE '200\n0.0' |
| Scenario.NonNumberCrashes | bank_server.py:357 | a logged-in `DEPOSIT ab-12345 abc` crashes the server |
| Scenario.UnknownAccount | bank_server.py:290 | `BALANCE zz-00000` is answered '400 Unknown Account Number' and changes nothing |
| Scenario.ReLoginAsWritten | bank_server.py:320-325 | after logging into A and then B, the registry still names the session as A's holder and B is free |
| Scenario.SecondSessionAdmitted | bank_server.py:313-326 | a second session can then log into B too: two sessions are authorised for one account |
| Scenario.StaleLockAfterClose | bank_server.py:256-258 | when the first session closes, A stays locked and later logins to A are told it is busy |
| Scenario.ReLoginFixed | bank_server.py:321 | with the corrected login, the re-login frees A, locks B, and a second session is told B is busy |
| Scenario.CloseFreesAccount | bank_server.py:256-258 | closing the holding session frees the account, and the next session's login succeeds |

## Left out

- Sockets and the selector (`run_network_server`, `listening_sock`, `accept`,
  `register`, `recv` and `send`) are OS I/O. The received chunk, the readiness flags
  and the number of bytes the transport accepts are parameters of `Session.Service`.
- `service_connection` sends after a close. The model does nothing more in a step that
  closed, because a send on a closed socket is a socket-level error.
- File I/O: the `open` and `readline` of `load_all_accounts` are left out. The lines
  `readline` returns are a parameter. `save_all_accounts` is left out entirely: it is
  output only and broken as written.
- The shutdown flush on KeyboardInterrupt is process control plus file I/O.
- All `print` diagnostics and `demo_bank_server` are left out.
- Floating point. Balances are exact integer cents and amounts are exact decimals.
  - Left out: binary rounding in `float()` and `round(x, 2)`, exponents, underscores,
    `inf` and `nan` (all of which make `as_numeric` give `None` here), and `-0.0`.
  - So the model crashes on DEPOSIT and WITHDRAW amounts written in these forms, which the
    server accepts. A DEPOSIT of `1e2` adds 100.00 and is answered '200'. A DEPOSIT of
    `inf` is answered '200' and a WITHDRAW of it '403'. `nan` is answered
    '400 Invalid Deposit Amount' or '400 Invalid Withdrawl Amount', because
    `round(nan, 2) == nan` is false (bank_server.py:50, 80-101, 357-375).
  - Likewise `Ledger.LoadAccount` skips account lines whose balance is written so, which
    the server loads (bank_server.py:116). A later line with the same number then decides
    that account in the model (`Ledger.FirstOccurrenceWins`), not in the program.
  - `Validation.FloatText` prints a balance the way `str()` prints it only for balances
    below about 7×10^13 (2^46), where a double can still tell cent values apart.
  - Two things happen above that and are not modelled: neighbouring cent values collapse
    into one double, so `str()` no longer prints the stored cents, and from 10^16 up
    `str()` switches to the exponent form.
- Unicode character classes.
  - `isalpha`, `isdigit`, `lower` and the whitespace `float()` trims are restricted to ASCII.
  - `Validation.AcctNumberIsValid` and `Atm.ValidAcctNumber` do not accept non-ASCII
    letters or digits, which Python's `isalpha` and `isdigit` would.
- The client's receive loop and its timeout (atm_client.py:29-34) are wall-clock and
  socket driven. `Atm.GetFromServer` decodes the received bytes as a whole.
- The client's interactive parts (`get_login_info`, `process_deposit`,
  `process_withdrawal`, `process_customer_transactions`, `run_atm_core_loop`,
  `ensure_valid`, `run_network_client`) are driven by `input()`.
- `Server.Session.Service`: only `addr[0]`, the IP address, is used. The port is kept in
  `addr` but nothing reads it.
- `Server.Bank.Login`: the registry holds Python strings. Nothing in the code keeps a
  newline out of an address, so `Wire.LoginEndToEnd` and `Wire.ResponsesDecode` take
  one-line addresses as a precondition (`HoldersOneLine`).

## Findings

| source | as written | input that shows it | evidently intended | confidence | as-written member | corrected member |
|---|---|---|---|---|---|---|
| bank_server.py:320-323 | after locking the new account, a session that was logged into another account calls `unmark_busy(acct_num)` and so frees the account it just locked | a session holding ab-12345 logs into a free cd-67890 with the right PIN | free the account held before, as the comment at line 321 says | not executed | Dispatch.ReLoginLosesLock | Dispatch.LoginFixedHolds |
| bank_server.py:46-49 | `amountIsValid(None)` raises TypeError, which `except ValueError` does not catch, so the `None` from `as_numeric` reaching `deposit` or `withdraw` ends the server | `DEPOSIT ab-12345 abc` from the session logged into ab-12345 | report an invalid amount (the docstring at lines 43-45 says the amount must be coercible to float) | not executed | Dispatch.CrashOnlyOnNonNumber | Ledger.FixedTxnsAgree |
