/** The request handlers of the bank server as functions on values: `process_request`,
    `login`, `mark_busy`, `unmark_busy`, `get_bal`, `deposit` and `withdraw`.
    The account table (ALL_ACCOUNTS) and the lock registry (ACTIVE_ACCOUNTS) form the
    World; the session's `auth` field is passed in and handed back. */
module Dispatch {
  import opened Wrappers
  import opened Text
  import opened Validation
  import opened Ledger

  /** ACTIVE_ACCOUNTS: account number to the IP address of the client holding it. */
  type Locks = map<string, string>

  datatype World = World(ledger: map<string, Account>, locks: Locks)

  /** What handling one request produces: the response text, the world after it and the
      session's `auth` after it. */
  datatype Reply = Reply(response: string, world: World, auth: string)

  /** `mark_busy(acct, ip)`: the account is now held by ip; no other entry changes. */
  function MarkBusy(locks: Locks, acct: string, ip: string): (r: Locks)
    ensures acct in r && r[acct] == ip
    ensures forall k | k in r :: k == acct || k in locks
    ensures forall k | k in locks && k != acct :: k in r && r[k] == locks[k]
  {
    locks[acct := ip]
  }

  /** `unmark_busy(acct)`: the account is free afterwards; no other entry changes, and
      an account that was not held leaves the registry as it was. */
  function UnmarkBusy(locks: Locks, acct: string): (r: Locks)
    ensures acct !in r
    ensures forall k | k in r :: k in locks
    ensures forall k | k in locks && k != acct :: k in r && r[k] == locks[k]
    ensures acct !in locks ==> r == locks
  {
    locks - {acct}
  }

  /** `login(acct, pin, session)` as written: on success the new account is marked busy
      and then, when the session was already logged into another account, the NEW
      account's entry is removed again (bank_server.py:322-323). */
  function Login(w: World, auth: string, ip: string, acct: string, pin: string): Reply
    requires acct in w.ledger
  {
    if w.ledger[acct].pin != pin then Reply("405", w, auth)
    else if acct in w.locks then Reply("300\n" + w.locks[acct], w, auth)
    else
      var marked := MarkBusy(w.locks, acct, ip);
      var locks := if auth != "" && auth != acct then UnmarkBusy(marked, acct) else marked;
      Reply("200", w.(locks := locks), acct)
  }

  /** `login` as its comment at bank_server.py:321 describes it: the account the session
      held before is the one released. */
  function LoginFixed(w: World, auth: string, ip: string, acct: string, pin: string): Reply
    requires acct in w.ledger
  {
    if w.ledger[acct].pin != pin then Reply("405", w, auth)
    else if acct in w.locks then Reply("300\n" + w.locks[acct], w, auth)
    else
      var marked := MarkBusy(w.locks, acct, ip);
      var locks := if auth != "" && auth != acct then UnmarkBusy(marked, auth) else marked;
      Reply("200", w.(locks := locks), acct)
  }

  /** `get_bal(acct, session)`. */
  function GetBal(w: World, auth: string, acct: string): string
    requires acct in w.ledger
  {
    if acct != auth then "401" else "200\n" + FloatText(w.ledger[acct].balance)
  }

  /** The world after setting one account's balance. */
  function SetBalance(w: World, acct: string, balance: int): (r: World)
    requires acct in w.ledger
    ensures r.locks == w.locks && r.ledger.Keys == w.ledger.Keys
    ensures r.ledger[acct] == Account(w.ledger[acct].pin, balance)
    ensures forall k | k in w.ledger && k != acct :: r.ledger[k] == w.ledger[k]
  {
    w.(ledger := w.ledger[acct := w.ledger[acct].(balance := balance)])
  }

  /** `deposit(acct, amount, session)`: Crash when the amount is not a number. */
  function Deposit(w: World, auth: string, acct: string, amount: string): Outcome<Reply>
    requires acct in w.ledger
  {
    if acct != auth then Return(Reply("401", w, auth))
    else
      match DepositTxn(w.ledger[acct].balance, AsNumeric(amount))
      case Crash => Crash
      case Return(t) =>
        Return(Reply(if t.code == 0 then "200" else "400 Invalid Deposit Amount",
                     SetBalance(w, acct, t.balance), auth))
  }

  /** `withdraw(acct, amount, session)`: Crash when the amount is not a number. */
  function Withdraw(w: World, auth: string, acct: string, amount: string): Outcome<Reply>
    requires acct in w.ledger
  {
    if acct != auth then Return(Reply("401", w, auth))
    else
      match WithdrawTxn(w.ledger[acct].balance, AsNumeric(amount))
      case Crash => Crash
      case Return(t) =>
        Return(Reply(if t.code == 0 then "200" else if t.code == 1 then "400 Invalid Withdrawl Amount" else "403",
                     SetBalance(w, acct, t.balance), auth))
  }

  /** `process_request(request, session)` for a session from address ip: split on single
      spaces, reject an unknown account before looking at the command, and answer '400'
      for a missing token (the IndexError) or a command it does not know. */
  function Process(w: World, auth: string, ip: string, request: string): Outcome<Reply>
  {
    var tokens := Split(request, ' ');
    var malformed := Reply("400", w, auth);
    if |tokens| < 2 then Return(malformed)
    else
      var cmd, acct := tokens[0], tokens[1];
      if acct !in w.ledger then Return(Reply("400 Unknown Account Number", w, auth))
      else if cmd == "LOGIN" then
        if |tokens| < 3 then Return(malformed) else Return(Login(w, auth, ip, acct, tokens[2]))
      else if cmd == "BALANCE" then Return(Reply(GetBal(w, auth, acct), w, auth))
      else if cmd == "DEPOSIT" then
        if |tokens| < 3 then Return(malformed) else Deposit(w, auth, acct, tokens[2])
      else if cmd == "WITHDRAW" then
        if |tokens| < 3 then Return(malformed) else Withdraw(w, auth, acct, tokens[2])
      else Return(malformed)
  }

  // ---------------------------------------------------------------------------------
  // Requests that are refused

  /** Too few tokens, an unknown account and an unknown command are answered with a 400
      status and change neither the world nor the session. */
  lemma ProcessRejects(w: World, auth: string, ip: string, request: string)
    ensures var tokens := Split(request, ' ');
      |tokens| < 2 ==> Process(w, auth, ip, request) == Return(Reply("400", w, auth))
    ensures var tokens := Split(request, ' ');
      |tokens| >= 2 && tokens[1] !in w.ledger ==>
        Process(w, auth, ip, request) == Return(Reply("400 Unknown Account Number", w, auth))
    ensures var tokens := Split(request, ' ');
      |tokens| >= 2 && tokens[1] in w.ledger && tokens[0] !in {"LOGIN", "BALANCE", "DEPOSIT", "WITHDRAW"} ==>
        Process(w, auth, ip, request) == Return(Reply("400", w, auth))
    ensures var tokens := Split(request, ' ');
      |tokens| == 2 && tokens[1] in w.ledger && tokens[0] in {"LOGIN", "DEPOSIT", "WITHDRAW"} ==>
        Process(w, auth, ip, request) == Return(Reply("400", w, auth))
  {
  }

  /** BALANCE, DEPOSIT and WITHDRAW on an account other than the session's (including a
      session that never logged in) answer '401' and change nothing. */
  lemma Unauthorised(w: World, auth: string, ip: string, request: string)
    requires var tokens := Split(request, ' ');
      && |tokens| >= (if tokens[0] == "BALANCE" then 2 else 3)
      && tokens[1] in w.ledger && tokens[1] != auth && tokens[0] in {"BALANCE", "DEPOSIT", "WITHDRAW"}
    ensures Process(w, auth, ip, request) == Return(Reply("401", w, auth))
  {
  }

  /** Only a DEPOSIT or WITHDRAW by the logged-in session whose amount `AsNumeric`
      rejects crashes the server. `AsNumeric` accepts decimal literals only, so amounts in
      exponent, underscore, `inf` or `nan` form, which `float()` parses, crash here too. */
  lemma CrashOnlyOnNonNumber(w: World, auth: string, ip: string, request: string)
    ensures Process(w, auth, ip, request).Crash? <==>
      var tokens := Split(request, ' ');
      && |tokens| >= 3 && tokens[1] in w.ledger && tokens[1] == auth
      && tokens[0] in {"DEPOSIT", "WITHDRAW"} && AsNumeric(tokens[2]).None?
  {
    var tokens := Split(request, ' ');
    if |tokens| >= 3 && tokens[1] in w.ledger {
      DepositOutcome(w.ledger[tokens[1]].balance, AsNumeric(tokens[2]));
      WithdrawOutcome(w.ledger[tokens[1]].balance, AsNumeric(tokens[2]));
    }
  }

  // ---------------------------------------------------------------------------------
  // Login

  /** A wrong PIN answers '405'; a right PIN on an account that is held answers '300'
      and the holder's address, whoever holds it, this session included. Neither
      changes the world or the session. */
  lemma LoginRefused(w: World, auth: string, ip: string, acct: string, pin: string)
    requires acct in w.ledger
    ensures w.ledger[acct].pin != pin ==> Login(w, auth, ip, acct, pin) == Reply("405", w, auth)
    ensures w.ledger[acct].pin == pin && acct in w.locks ==>
      Login(w, auth, ip, acct, pin) == Reply("300\n" + w.locks[acct], w, auth)
  {
  }

  /** The first login of a session marks the account as held from the session's address
      and authorises the session for it: afterwards the session holds what it may use. */
  lemma FirstLogin(w: World, ip: string, acct: string)
    requires acct in w.ledger && acct !in w.locks
    ensures var r := Login(w, "", ip, acct, w.ledger[acct].pin);
      && r.response == "200" && r.auth == acct && r.world.ledger == w.ledger
      && r.world.locks == w.locks[acct := ip]
      && Holds(r.world, r.auth)
  {
  }

  /** The session either holds no account or holds a lock on the account it may use. */
  ghost predicate Holds(w: World, auth: string)
  {
    auth == "" || auth in w.locks
  }

  /** Logging in to a free account B from a session that holds A, as written: B is left
      unlocked, A stays locked, and the session is authorised for B, so it no longer
      holds what it may use. */
  lemma ReLoginLosesLock(w: World, a: string, ip: string, b: string)
    requires b in w.ledger && b !in w.locks && a != "" && b != "" && a != b && a in w.locks
    ensures var r := Login(w, a, ip, b, w.ledger[b].pin);
      && r.response == "200" && r.auth == b
      && r.world.locks == w.locks
      && a in r.world.locks && b !in r.world.locks
      && Holds(w, a) && !Holds(r.world, r.auth)
  {
    var marked := MarkBusy(w.locks, b, ip);
    var freed := UnmarkBusy(marked, b);
    assert freed.Keys == w.locks.Keys;
    assert freed == w.locks;
    assert Login(w, a, ip, b, w.ledger[b].pin).world.locks == freed;
  }

  /** The corrected login keeps a session holding what it may use, frees the account it
      held before, and touches no other session's lock. */
  lemma LoginFixedHolds(w: World, auth: string, ip: string, acct: string, pin: string)
    requires acct in w.ledger && Holds(w, auth)
    ensures var r := LoginFixed(w, auth, ip, acct, pin);
      && Holds(r.world, r.auth)
      && r.world.ledger == w.ledger
      && (r.response == "200" && auth != "" && auth != acct ==> auth !in r.world.locks)
      && (forall k | k in w.locks && k != auth :: k in r.world.locks && r.world.locks[k] == w.locks[k])
  {
  }

  // ---------------------------------------------------------------------------------
  // Balance, deposit and withdrawal

  /** The logged-in session's BALANCE answers '200' and the printed balance. */
  lemma BalanceReply(w: World, ip: string, acct: string)
    requires acct in w.ledger && ' ' !in acct
    ensures Process(w, acct, ip, "BALANCE " + acct) ==
      Return(Reply("200\n" + FloatText(w.ledger[acct].balance), w, acct))
  {
    assert "BALANCE " + acct == "BALANCE" + " " + acct;
    SplitSpaceless("BALANCE", acct, "");
  }

  /** Status mapping of DEPOSIT for the logged-in session: code 0 answers '200' and adds
      the amount; anything else answers '400 Invalid Deposit Amount' and changes nothing. */
  lemma DepositReply(w: World, acct: string, amount: string)
    requires acct in w.ledger && AsNumeric(amount).Some?
    ensures var d := AsNumeric(amount).value;
      AmountIsValid(d) ==>
        Deposit(w, acct, acct, amount) ==
          Return(Reply("200", SetBalance(w, acct, w.ledger[acct].balance + Cents(d)), acct))
    ensures !AmountIsValid(AsNumeric(amount).value) ==>
      Deposit(w, acct, acct, amount) == Return(Reply("400 Invalid Deposit Amount", w, acct))
  {
    var d := AsNumeric(amount).value;
    var bal := w.ledger[acct].balance;
    if AmountIsValid(d) {
      assert DepositTxn(bal, AsNumeric(amount)) == Return(Txn(0, bal + Cents(d)));
    } else {
      assert DepositTxn(bal, AsNumeric(amount)) == Return(Txn(1, bal));
      assert SetBalance(w, acct, bal) == w;
    }
  }

  /** Status mapping of WITHDRAW for the logged-in session: 1 answers '400 Invalid
      Withdrawl Amount', 2 answers '403', both changing nothing; 0 answers '200' and
      subtracts the amount. */
  lemma WithdrawReply(w: World, acct: string, amount: string)
    requires acct in w.ledger && AsNumeric(amount).Some?
    ensures var d := AsNumeric(amount).value;
      !AmountIsValid(d) ==>
        Withdraw(w, acct, acct, amount) == Return(Reply("400 Invalid Withdrawl Amount", w, acct))
    ensures var d := AsNumeric(amount).value;
      AmountIsValid(d) && Cents(d) > w.ledger[acct].balance ==>
        Withdraw(w, acct, acct, amount) == Return(Reply("403", w, acct))
    ensures var d := AsNumeric(amount).value;
      AmountIsValid(d) && Cents(d) <= w.ledger[acct].balance ==>
        Withdraw(w, acct, acct, amount) ==
          Return(Reply("200", SetBalance(w, acct, w.ledger[acct].balance - Cents(d)), acct))
  {
    var d := AsNumeric(amount).value;
    var bal := w.ledger[acct].balance;
    if !AmountIsValid(d) {
      assert WithdrawTxn(bal, AsNumeric(amount)) == Return(Txn(1, bal));
      assert SetBalance(w, acct, bal) == w;
    } else if Cents(d) > bal {
      assert WithdrawTxn(bal, AsNumeric(amount)) == Return(Txn(2, bal));
      assert SetBalance(w, acct, bal) == w;
    } else {
      assert WithdrawTxn(bal, AsNumeric(amount)) == Return(Txn(0, bal - Cents(d)));
    }
  }

  // ---------------------------------------------------------------------------------
  // What a request can change

  /** A request never frees or reassigns a lock that was in place before it, and adds at
      most the lock on the account it names; so the registry only ever grows, and an
      account left locked by the re-login stays locked. */
  lemma ProcessKeepsLocks(w: World, auth: string, ip: string, request: string)
    requires Process(w, auth, ip, request).Return?
    ensures var r := Process(w, auth, ip, request).value;
      && (forall k | k in w.locks :: k in r.world.locks && r.world.locks[k] == w.locks[k])
      && (forall k | k in r.world.locks && k !in w.locks :: k == Split(request, ' ')[1] && r.world.locks[k] == ip)
  {
  }

  /** A request keeps the table's keys, changes at most the balance of the account
      the session is logged into, and keeps every balance non-negative. */
  lemma ProcessKeepsLedger(w: World, auth: string, ip: string, request: string)
    requires Process(w, auth, ip, request).Return? && Sound(w.ledger)
    ensures var r := Process(w, auth, ip, request).value;
      && r.world.ledger.Keys == w.ledger.Keys
      && Sound(r.world.ledger)
      && (forall k | k in w.ledger && k != auth :: r.world.ledger[k] == w.ledger[k])
      && (forall k | k in w.ledger :: r.world.ledger[k].pin == w.ledger[k].pin)
  {
    var tokens := Split(request, ' ');
    if |tokens| >= 3 && tokens[1] in w.ledger && tokens[1] == auth {
      var bal := w.ledger[auth].balance;
      var amount := AsNumeric(tokens[2]);
      if tokens[0] == "DEPOSIT" {
        DepositOutcome(bal, amount);
        if amount.Some? && AmountIsValid(amount.value) { ValidAmountCents(amount.value); }
      } else if tokens[0] == "WITHDRAW" {
        WithdrawOutcome(bal, amount);
      }
    }
  }

  /** The session's `auth` changes only by a successful login, and then to a known
      account. */
  lemma ProcessAuth(w: World, auth: string, ip: string, request: string)
    requires Process(w, auth, ip, request).Return?
    ensures var r := Process(w, auth, ip, request).value;
      r.auth == auth || (r.response == "200" && r.auth in w.ledger && Split(request, ' ')[0] == "LOGIN")
  {
  }

  /** A space-free command and arguments split back into themselves. */
  lemma SplitSpaceless(cmd: string, a: string, b: string)
    requires ' ' !in cmd && ' ' !in a && ' ' !in b
    ensures b == "" ==> Split(cmd + " " + a, ' ') == [cmd, a]
    ensures Split(cmd + " " + a + " " + b, ' ') == [cmd, a, b]
  {
    SplitNoSep(a, ' ');
    SplitAfter(cmd, a, ' ');
    SplitNoSep(b, ' ');
    SplitAfter(a, b, ' ');
    assert cmd + " " + a + " " + b == cmd + [' '] + (a + [' '] + b);
    SplitAfter(cmd, a + " " + b, ' ');
  }

  // ---------------------------------------------------------------------------------
  // Requests that name their handler

  /** A space-free account and PIN reach `login`. */
  lemma LoginRoute(w: World, auth: string, ip: string, acct: string, pin: string)
    requires ' ' !in acct && ' ' !in pin && acct in w.ledger
    ensures Process(w, auth, ip, "LOGIN " + acct + " " + pin) == Return(Login(w, auth, ip, acct, pin))
  {
    assert "LOGIN " + acct + " " + pin == "LOGIN" + " " + acct + " " + pin;
    SplitSpaceless("LOGIN", acct, pin);
  }

  /** A space-free account reaches `get_bal`. */
  lemma BalanceRoute(w: World, auth: string, ip: string, acct: string)
    requires ' ' !in acct && acct in w.ledger
    ensures Process(w, auth, ip, "BALANCE " + acct) == Return(Reply(GetBal(w, auth, acct), w, auth))
  {
    assert "BALANCE " + acct == "BALANCE" + " " + acct;
    SplitSpaceless("BALANCE", acct, "");
  }

  /** A space-free account and amount reach `deposit`. */
  lemma DepositRoute(w: World, auth: string, ip: string, acct: string, amount: string)
    requires ' ' !in acct && ' ' !in amount && acct in w.ledger
    ensures Process(w, auth, ip, "DEPOSIT " + acct + " " + amount) == Deposit(w, auth, acct, amount)
  {
    assert "DEPOSIT " + acct + " " + amount == "DEPOSIT" + " " + acct + " " + amount;
    SplitSpaceless("DEPOSIT", acct, amount);
  }

  /** A space-free account and amount reach `withdraw`. */
  lemma WithdrawRoute(w: World, auth: string, ip: string, acct: string, amount: string)
    requires ' ' !in acct && ' ' !in amount && acct in w.ledger
    ensures Process(w, auth, ip, "WITHDRAW " + acct + " " + amount) == Withdraw(w, auth, acct, amount)
  {
    assert "WITHDRAW " + acct + " " + amount == "WITHDRAW" + " " + acct + " " + amount;
    SplitSpaceless("WITHDRAW", acct, amount);
  }
}
