/** Account values and their transitions: what `BankAccount.__init__`, `deposit` and
    `withdraw` compute, and what `load_account` and the line loop of
    `load_all_accounts` do to the account table, as functions on values. */
module Ledger {
  import opened Wrappers
  import opened Text
  import opened Validation

  /** The state of one BankAccount: its PIN and its balance in cents. */
  datatype Account = Account(pin: string, balance: int)

  /** The code a balance transition returns (0 done, 1 invalid amount, 2 overdraft)
      and the balance after it. */
  datatype Txn = Txn(code: int, balance: int)

  /** `BankAccount(num, pin, bal)`: an invalid PIN keeps the class default '' and an
      invalid balance keeps the class default 0.0. */
  function NewAccount(pin: string, bal: Decimal): Account
  {
    Account(if AcctPinIsValid(pin) then pin else "", if AmountIsValid(bal) then Cents(bal) else 0)
  }

  /** `BankAccount.deposit(as_numeric(amount))`; None is the `None` that `as_numeric`
      returns for a non-number, on which `amountIsValid` raises TypeError. */
  function DepositTxn(balance: int, amount: Option<Decimal>): Outcome<Txn>
  {
    match amount
    case None => Crash
    case Some(d) =>
      if !AmountIsValid(d) then Return(Txn(1, balance))
      else Return(Txn(0, balance + Cents(d)))
  }

  /** `BankAccount.withdraw(as_numeric(amount))`. */
  function WithdrawTxn(balance: int, amount: Option<Decimal>): Outcome<Txn>
  {
    match amount
    case None => Crash
    case Some(d) =>
      if !AmountIsValid(d) then Return(Txn(1, balance))
      else if Cents(d) > balance then Return(Txn(2, balance))
      else Return(Txn(0, balance - Cents(d)))
  }

  /** A deposit either fails with code 1 and leaves the balance, or succeeds with code 0
      and adds exactly the amount; only a non-number crashes. */
  lemma DepositOutcome(balance: int, amount: Option<Decimal>)
    ensures DepositTxn(balance, amount).Crash? <==> amount.None?
    ensures amount.Some? && !AmountIsValid(amount.value) ==> DepositTxn(balance, amount) == Return(Txn(1, balance))
    ensures amount.Some? && AmountIsValid(amount.value) ==>
      DepositTxn(balance, amount) == Return(Txn(0, balance + Cents(amount.value)))
  {
  }

  /** Withdrawal codes: 1 for an invalid amount, 2 for more than the balance, else 0 and
      the balance drops by exactly the amount; a non-negative balance stays non-negative. */
  lemma WithdrawOutcome(balance: int, amount: Option<Decimal>)
    ensures WithdrawTxn(balance, amount).Crash? <==> amount.None?
    ensures amount.Some? && !AmountIsValid(amount.value) ==> WithdrawTxn(balance, amount) == Return(Txn(1, balance))
    ensures amount.Some? && AmountIsValid(amount.value) && Cents(amount.value) > balance ==>
      WithdrawTxn(balance, amount) == Return(Txn(2, balance))
    ensures amount.Some? && AmountIsValid(amount.value) && Cents(amount.value) <= balance ==>
      WithdrawTxn(balance, amount) == Return(Txn(0, balance - Cents(amount.value)))
    ensures balance >= 0 && WithdrawTxn(balance, amount).Return? ==> WithdrawTxn(balance, amount).value.balance >= 0
  {
  }

  /** Withdrawing the amount just deposited restores the balance. */
  lemma WithdrawUndoesDeposit(balance: int, d: Decimal)
    requires balance >= 0 && AmountIsValid(d)
    ensures WithdrawTxn(DepositTxn(balance, Some(d)).value.balance, Some(d)) == Return(Txn(0, balance))
  {
  }

  /** `amountIsValid` as its docstring describes it, false for anything that is not a
      number instead of raising TypeError on the None from `as_numeric`. */
  predicate AmountOk(amount: Option<Decimal>)
  {
    amount.Some? && AmountIsValid(amount.value)
  }

  /** The deposit with that check: it cannot crash. */
  function DepositTxnFixed(balance: int, amount: Option<Decimal>): Txn
  {
    if !AmountOk(amount) then Txn(1, balance) else Txn(0, balance + Cents(amount.value))
  }

  /** The withdrawal with that check: it cannot crash. */
  function WithdrawTxnFixed(balance: int, amount: Option<Decimal>): Txn
  {
    if !AmountOk(amount) then Txn(1, balance)
    else if Cents(amount.value) > balance then Txn(2, balance)
    else Txn(0, balance - Cents(amount.value))
  }

  /** A non-number is an invalid amount (code 1, balance unchanged) for the corrected
      transitions, which otherwise agree with the ones as written. */
  lemma FixedTxnsAgree(balance: int, amount: Option<Decimal>)
    ensures amount.None? ==> DepositTxnFixed(balance, amount) == Txn(1, balance)
    ensures amount.None? ==> WithdrawTxnFixed(balance, amount) == Txn(1, balance)
    ensures amount.Some? ==> DepositTxn(balance, amount) == Return(DepositTxnFixed(balance, amount))
    ensures amount.Some? ==> WithdrawTxn(balance, amount) == Return(WithdrawTxnFixed(balance, amount))
  {
  }

  /** The table holds only well-formed account numbers and non-negative balances. */
  ghost predicate Sound(ledger: map<string, Account>)
  {
    forall k | k in ledger :: AcctNumberIsValid(k) && ledger[k].balance >= 0
  }

  /** `get_acct(num)`: the account under a well-formed number that is in the table. */
  function GetAcct(ledger: map<string, Account>, num: string): (r: Option<Account>)
    ensures r.Some? <==> AcctNumberIsValid(num) && num in ledger
    ensures r.Some? ==> r.value == ledger[num]
  {
    if AcctNumberIsValid(num) && num in ledger then Some(ledger[num]) else None
  }

  /** `load_account(num, pin, bal)`: whether it loaded, and the table after. */
  function LoadAccount(ledger: map<string, Account>, num: string, pin: string, bal: string): (bool, map<string, Account>)
  {
    match AsNumeric(bal)
    case None => (false, ledger)
    case Some(b) =>
      if AcctNumberIsValid(num) && GetAcct(ledger, num).None? then (true, ledger[num := NewAccount(pin, b)])
      else (false, ledger)
  }

  /** Loading inserts exactly when the balance is a number, the account number is well
      formed and not yet present; otherwise the table is unchanged. */
  lemma LoadAccountInserts(ledger: map<string, Account>, num: string, pin: string, bal: string)
    ensures LoadAccount(ledger, num, pin, bal).0 <==> AsNumeric(bal).Some? && AcctNumberIsValid(num) && num !in ledger
    ensures LoadAccount(ledger, num, pin, bal).0 ==>
      LoadAccount(ledger, num, pin, bal).1 == ledger[num := NewAccount(pin, AsNumeric(bal).value)]
    ensures !LoadAccount(ledger, num, pin, bal).0 ==> LoadAccount(ledger, num, pin, bal).1 == ledger
  {
  }

  /** Loading an account keeps a sound table sound. */
  lemma LoadAccountSound(ledger: map<string, Account>, num: string, pin: string, bal: string)
    requires Sound(ledger)
    ensures Sound(LoadAccount(ledger, num, pin, bal).1)
  {
    match AsNumeric(bal)
    case None =>
    case Some(b) =>
      if AcctNumberIsValid(num) && num !in ledger {
        var after := ledger[num := NewAccount(pin, b)];
        if AmountIsValid(b) { ValidAmountCents(b); }
        assert after[num].balance >= 0;
      }
  }

  /** One line of the account file, after `line.lower().replace(" ", "").split(',')`. */
  datatype Line = Comment | Malformed | Record(num: string, pin: string, bal: string)

  function ParseLine(line: string): Line
    requires line != ""
  {
    if line[0] == '#' then Comment
    else
      var fields := Split(Remove(Lower(line), ' '), ',');
      if |fields| != 3 then Malformed else Record(fields[0], fields[1], fields[2])
  }

  function LoadLine(ledger: map<string, Account>, line: string): map<string, Account>
    requires line != ""
  {
    match ParseLine(line)
    case Record(n, p, b) => LoadAccount(ledger, n, p, b).1
    case _ => ledger
  }

  /** The loop of `load_all_accounts` over what successive `readline()` calls return;
      the empty string is end of file and stops the loop. */
  function LoadLines(ledger: map<string, Account>, lines: seq<string>): map<string, Account>
    decreases |lines|
  {
    if lines == [] || lines[0] == "" then ledger
    else LoadLines(LoadLine(ledger, lines[0]), lines[1..])
  }

  /** Loading never changes or removes an account already in the table. */
  lemma {:induction false} LoadLinesKeepsExisting(ledger: map<string, Account>, lines: seq<string>)
    ensures forall k | k in ledger :: k in LoadLines(ledger, lines) && LoadLines(ledger, lines)[k] == ledger[k]
    decreases |lines|
  {
    if lines != [] && lines[0] != "" {
      LoadLinesKeepsExisting(LoadLine(ledger, lines[0]), lines[1..]);
    }
  }

  /** Loading keeps the table sound. */
  lemma {:induction false} LoadLinesSound(ledger: map<string, Account>, lines: seq<string>)
    requires Sound(ledger)
    ensures Sound(LoadLines(ledger, lines))
    decreases |lines|
  {
    if lines != [] && lines[0] != "" {
      match ParseLine(lines[0]) {
        case Record(n, p, b) => LoadAccountSound(ledger, n, p, b);
        case _ =>
      }
      LoadLinesSound(LoadLine(ledger, lines[0]), lines[1..]);
    }
  }

  /** Loading a prefix of the lines, then the rest, is loading them all. */
  lemma {:induction false} LoadLinesSplit(ledger: map<string, Account>, lines: seq<string>, i: nat)
    requires i <= |lines|
    requires forall j | 0 <= j < i :: lines[j] != ""
    ensures LoadLines(ledger, lines) == LoadLines(LoadLines(ledger, lines[..i]), lines[i..])
    decreases i
  {
    if i > 0 {
      assert lines[..i][1..] == lines[1..][..i - 1];
      LoadLinesSplit(LoadLine(ledger, lines[0]), lines[1..], i - 1);
      assert lines[1..][i - 1..] == lines[i..];
    } else {
      assert lines[..0] == [];
    }
  }

  /** The first line that loads an account number decides that account: later lines with
      the same number are ignored. */
  lemma FirstOccurrenceWins(ledger: map<string, Account>, lines: seq<string>, i: nat, b: Decimal)
    requires i < |lines|
    requires forall j | 0 <= j <= i :: lines[j] != ""
    requires ParseLine(lines[i]).Record?
    requires AcctNumberIsValid(ParseLine(lines[i]).num) && AsNumeric(ParseLine(lines[i]).bal) == Some(b)
    requires ParseLine(lines[i]).num !in LoadLines(ledger, lines[..i])
    ensures var n := ParseLine(lines[i]).num;
      n in LoadLines(ledger, lines) && LoadLines(ledger, lines)[n] == NewAccount(ParseLine(lines[i]).pin, b)
  {
    var before := LoadLines(ledger, lines[..i]);
    LoadLinesSplit(ledger, lines, i);
    var after := LoadLine(before, lines[i]);
    assert LoadLines(before, lines[i..]) == LoadLines(after, lines[i + 1..]) by {
      assert lines[i..][1..] == lines[i + 1..];
    }
    LoadLinesKeepsExisting(after, lines[i + 1..]);
  }
}
