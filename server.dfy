/** The bank server's objects: BankAccount instances, the two global tables (ALL_ACCOUNTS
    and ACTIVE_ACCOUNTS) held by a Bank, and the per-connection session record. Every
    method is proved to do what the value-level definitions in Ledger, Dispatch and
    Connection say. */
module Server {
  import opened Wrappers
  import opened Text
  import opened Utf8
  import opened Validation
  import opened Ledger
  import opened Dispatch
  import opened Connection

  /** One account of the in-memory database. */
  class BankAccount {
    var acctNumber: string
    var acctPin: string
    var acctBalance: int

    /** `BankAccount(num, pin, bal)`: a field whose argument fails validation keeps its
        class default ('' or 0.0). */
    constructor (num: string, pin: string, bal: Decimal)
      ensures acctNumber == (if AcctNumberIsValid(num) then num else "")
      ensures Account(acctPin, acctBalance) == NewAccount(pin, bal)
    {
      acctNumber, acctPin, acctBalance := "", "", 0;
      if AcctNumberIsValid(num) {
        acctNumber := num;
      }
      if AcctPinIsValid(pin) {
        acctPin := pin;
      }
      if AmountIsValid(bal) {
        acctBalance := Cents(bal);
      }
    }

    /** `deposit(amount)`: the code, or Crash for the TypeError on a None amount. */
    method Deposit(amount: Option<Decimal>) returns (r: Outcome<int>)
      modifies this`acctBalance
      ensures match DepositTxn(old(acctBalance), amount)
        case Crash => r == Crash && acctBalance == old(acctBalance)
        case Return(t) => r == Return(t.code) && acctBalance == t.balance
    {
      if amount.None? {
        return Crash;
      }
      var code := 0;
      if !AmountIsValid(amount.value) {
        code := 1;
      } else {
        acctBalance := acctBalance + Cents(amount.value);
      }
      return Return(code);
    }

    /** `withdraw(amount)`: the code, or Crash for the TypeError on a None amount. */
    method Withdraw(amount: Option<Decimal>) returns (r: Outcome<int>)
      modifies this`acctBalance
      ensures match WithdrawTxn(old(acctBalance), amount)
        case Crash => r == Crash && acctBalance == old(acctBalance)
        case Return(t) => r == Return(t.code) && acctBalance == t.balance
    {
      if amount.None? {
        return Crash;
      }
      var code := 0;
      if !AmountIsValid(amount.value) {
        code := 1;
      } else if Cents(amount.value) > acctBalance {
        code := 2;
      } else {
        acctBalance := acctBalance - Cents(amount.value);
      }
      return Return(code);
    }
  }

  /** The account table and the lock registry. */
  class Bank {
    var accounts: map<string, BankAccount>
    var locks: map<string, string>

    /** Every account is stored under its own number, so distinct keys hold distinct
        objects. */
    ghost predicate Valid()
      reads this`accounts, accounts.Values
    {
      forall k | k in accounts :: accounts[k].acctNumber == k
    }

    /** The table as values. */
    ghost function Table(): map<string, Account>
      reads this`accounts, accounts.Values
    {
      map k | k in accounts :: Account(accounts[k].acctPin, accounts[k].acctBalance)
    }

    ghost function State(): World
      reads this, accounts.Values
    {
      World(Table(), locks)
    }

    constructor ()
      ensures Valid() && State() == World(map[], map[])
    {
      accounts, locks := map[], map[];
    }

    /** `get_acct(num)`: null stands for the False it returns. */
    method GetAcct(num: string) returns (a: BankAccount?)
      requires Valid()
      ensures a == null <==> Ledger.GetAcct(Table(), num).None?
      ensures a != null ==>
        num in accounts && a == accounts[num] && Ledger.GetAcct(Table(), num) == Some(Account(a.acctPin, a.acctBalance))
    {
      if AcctNumberIsValid(num) && num in accounts {
        return accounts[num];
      }
      return null;
    }

    /** `load_account(num, pin, bal)`. */
    method LoadAccount(num: string, pin: string, bal: string) returns (ok: bool)
      requires Valid()
      modifies this`accounts
      ensures Valid() && locks == old(locks)
      ensures (ok, Table()) == Ledger.LoadAccount(old(Table()), num, pin, bal)
    {
      var b := AsNumeric(bal);
      if b.None? {
        return false;
      }
      if AcctNumberIsValid(num) {
        var existing := GetAcct(num);
        if existing != null {
          return false;
        }
        var acct := new BankAccount(num, pin, b.value);
        accounts := accounts[num := acct];
        assert Table() == old(Table())[num := NewAccount(pin, b.value)];
        return true;
      }
      return false;
    }

    /** The line loop of `load_all_accounts` over what successive `readline()` calls
        return, up to the first empty string (end of file). */
    method LoadAllAccounts(lines: seq<string>)
      requires Valid()
      modifies this`accounts
      ensures Valid() && locks == old(locks)
      ensures Table() == LoadLines(old(Table()), lines)
    {
      var i := 0;
      while i < |lines| && lines[i] != ""
        invariant 0 <= i <= |lines|
        invariant Valid() && locks == old(locks)
        invariant LoadLines(Table(), lines[i..]) == LoadLines(old(Table()), lines)
      {
        LoadLine(lines[i]);
        assert lines[i..][1..] == lines[i + 1..];
        i := i + 1;
      }
    }

    /** One pass of that loop: skip a comment, skip a line without exactly three
        comma-separated fields, otherwise load the account it describes. */
    method LoadLine(line: string)
      requires Valid() && line != ""
      modifies this`accounts
      ensures Valid() && locks == old(locks)
      ensures Table() == Ledger.LoadLine(old(Table()), line)
    {
      if line[0] == '#' {
        return;
      }
      var fields := Split(Remove(Lower(line), ' '), ',');
      if |fields| != 3 {
        return;
      }
      var _ := LoadAccount(fields[0], fields[1], fields[2]);
    }

    /** `mark_busy(acct, ip)`. */
    method MarkBusy(acct: string, ip: string)
      modifies this`locks
      ensures locks == Dispatch.MarkBusy(old(locks), acct, ip)
    {
      locks := locks[acct := ip];
    }

    /** `unmark_busy(acct)`. */
    method UnmarkBusy(acct: string)
      modifies this`locks
      ensures locks == Dispatch.UnmarkBusy(old(locks), acct)
    {
      if acct in locks {
        locks := locks - {acct};
      }
    }

    /** `login(acct, pin, session)`, as written. */
    method Login(session: Session, acct: string, pin: string) returns (response: string)
      requires Valid() && acct in accounts
      modifies this`locks, session`auth
      ensures Reply(response, State(), session.auth) ==
        Dispatch.Login(old(State()), old(session.auth), session.addr.0, acct, pin)
    {
      if accounts[acct].acctPin == pin {
        if acct in locks {
          return "300\n" + locks[acct];
        }
        MarkBusy(acct, session.addr.0);
        if session.auth != "" && session.auth != acct {
          UnmarkBusy(acct);
        }
        session.auth := acct;
        return "200";
      } else {
        return "405";
      }
    }

    /** `get_bal(acct, session)`. */
    method GetBal(session: Session, acct: string) returns (response: string)
      requires Valid() && acct in accounts
      ensures response == Dispatch.GetBal(State(), session.auth, acct)
    {
      if acct != session.auth {
        return "401";
      }
      return "200\n" + FloatText(accounts[acct].acctBalance);
    }

    /** After one account's balance is set, the table differs in that balance only. */
    twostate lemma BalanceSet(acct: string)
      requires old(Valid()) && acct in old(accounts) && accounts == old(accounts)
      requires forall k | k in accounts && k != acct :: unchanged(accounts[k])
      requires accounts[acct].acctNumber == old(accounts[acct].acctNumber)
      requires accounts[acct].acctPin == old(accounts[acct].acctPin)
      ensures Valid()
      ensures State() == SetBalance(old(State()), acct, accounts[acct].acctBalance).(locks := locks)
    {
    }

    /** `deposit(acct, amount, session)`. */
    method DepositReq(session: Session, acct: string, amount: string) returns (r: Outcome<string>)
      requires Valid() && acct in accounts
      modifies accounts.Values
      ensures Valid()
      ensures match Dispatch.Deposit(old(State()), session.auth, acct, amount)
        case Crash => r == Crash && State() == old(State())
        case Return(rep) => r == Return(rep.response) && State() == rep.world
    {
      if acct != session.auth {
        return Return("401");
      }
      var code := accounts[acct].Deposit(AsNumeric(amount));
      BalanceSet(acct);
      match code
      case Crash =>
        return Crash;
      case Return(c) =>
        if c == 0 {
          return Return("200");
        } else {
          return Return("400 Invalid Deposit Amount");
        }
    }

    /** `withdraw(acct, amount, session)`. */
    method WithdrawReq(session: Session, acct: string, amount: string) returns (r: Outcome<string>)
      requires Valid() && acct in accounts
      modifies accounts.Values
      ensures Valid()
      ensures match Dispatch.Withdraw(old(State()), session.auth, acct, amount)
        case Crash => r == Crash && State() == old(State())
        case Return(rep) => r == Return(rep.response) && State() == rep.world
    {
      if acct != session.auth {
        return Return("401");
      }
      var code := accounts[acct].Withdraw(AsNumeric(amount));
      BalanceSet(acct);
      match code
      case Crash =>
        return Crash;
      case Return(c) =>
        if c == 0 {
          return Return("200");
        } else if c == 1 {
          return Return("400 Invalid Withdrawl Amount");
        } else {
          return Return("403");
        }
    }

    /** `process_request(request, session)`. */
    method ProcessRequest(session: Session, request: string) returns (r: Outcome<string>)
      requires Valid()
      modifies this`locks, session`auth, accounts.Values
      ensures Valid() && accounts == old(accounts)
      ensures match Process(old(State()), old(session.auth), session.addr.0, request)
        case Crash => r == Crash && State() == old(State()) && session.auth == old(session.auth)
        case Return(rep) => r == Return(rep.response) && State() == rep.world && session.auth == rep.auth
    {
      var tokens := Split(request, ' ');
      if |tokens| < 2 {
        return Return("400");
      }
      var command, acct := tokens[0], tokens[1];
      if acct !in accounts {
        return Return("400 Unknown Account Number");
      }
      if command == "LOGIN" {
        if |tokens| < 3 {
          return Return("400");
        }
        var response := Login(session, acct, tokens[2]);
        return Return(response);
      } else if command == "BALANCE" {
        var response := GetBal(session, acct);
        return Return(response);
      } else if command == "DEPOSIT" {
        if |tokens| < 3 {
          return Return("400");
        }
        r := DepositReq(session, acct, tokens[2]);
      } else if command == "WITHDRAW" {
        if |tokens| < 3 {
          return Return("400");
        }
        r := WithdrawReq(session, acct, tokens[2]);
      } else {
        return Return("400");
      }
    }
  }

  /** The data of one client connection: its address, the bytes received so far, the
      bytes waiting to be sent, and the account it is logged into ('' for none). */
  class Session {
    const addr: (string, int)
    var inb: Bytes
    var outb: Bytes
    var auth: string

    ghost function Record(): Conn
      reads this
    {
      Conn(inb, outb, auth)
    }

    /** The record `accept_connection` builds. */
    constructor (addr: (string, int))
      ensures this.addr == addr && Record() == Conn([], [], "")
    {
      this.addr := addr;
      inb, outb, auth := [], [], "";
    }

    /** The read half of `service_connection`, given what `recv(1024)` returned. */
    method Receive(bank: Bank, chunk: Bytes) returns (status: Status)
      requires bank.Valid()
      modifies this, bank`locks, bank.accounts.Values
      ensures bank.Valid() && bank.accounts == old(bank.accounts)
      ensures (status, bank.State(), Record()) == Connection.Receive(old(bank.State()), old(Record()), addr.0, chunk)
    {
      if chunk == [] {
        bank.UnmarkBusy(auth);
        return Closed;
      }
      inb := inb + chunk;
      if IsComplete(inb) {
        status := Respond(bank);
      } else {
        status := Open;
      }
    }

    /** A complete request is in `inb`: decode it up to the last terminator, process
        it, queue the response frame and empty `inb`. */
    method Respond(bank: Bank) returns (status: Status)
      requires bank.Valid() && IsComplete(inb)
      modifies this, bank`locks, bank.accounts.Values
      ensures bank.Valid() && bank.accounts == old(bank.accounts)
      ensures match Handle(old(bank.State()), old(auth), addr.0, old(inb)[..RFind(old(inb))])
        case Crash => status == Crashed && bank.State() == old(bank.State()) && Record() == old(Record())
        case Return(rep) =>
          status == Open && bank.State() == rep.world && Record() == Conn([], old(outb) + Frame(rep.response), rep.auth)
    {
      var text := Decode(inb[..RFind(inb)]);
      if text.None? {
        return Crashed;
      }
      var response := bank.ProcessRequest(this, text.value);
      if response.Crash? {
        return Crashed;
      }
      outb := outb + Frame(response.value);
      inb := [];
      return Open;
    }

    /** `service_connection(key, mask, sel)` for this session. */
    method Service(bank: Bank, readable: bool, writable: bool, chunk: Bytes, accepted: nat)
      returns (status: Status, sent: Bytes)
      requires bank.Valid() && |chunk| <= 1024
      modifies this, bank`locks, bank.accounts.Values
      ensures bank.Valid() && bank.accounts == old(bank.accounts)
      ensures Step(status, bank.State(), Record(), sent) ==
        Connection.Service(old(bank.State()), old(Record()), addr.0, readable, writable, chunk, accepted)
    {
      status, sent := Open, [];
      if readable {
        status := Receive(bank, chunk);
      }
      if status == Open && writable && outb != [] {
        var n := if accepted < |outb| then accepted else |outb|;
        sent := outb[..n];
        outb := outb[n..];
      }
    }
  }
}
