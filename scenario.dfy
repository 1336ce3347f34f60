/** Concrete sessions against the dispatcher: the walk-through of one account from login
    to an emptied balance, and the two-session runs that show what the re-login of
    bank_server.py:322-323 does to the lock registry. */
module Scenario {
  import opened Wrappers
  import opened Text
  import opened Validation
  import opened Ledger
  import opened Dispatch

  const Acct: string := "ab-12345"
  const Pin: string := "1234"
  const Other: string := "cd-67890"
  const OtherPin: string := "5678"

  /** The bank before anyone logs in: one account holding 100.00. */
  function Opening(): World
  {
    World(map[Acct := Account(Pin, 10000)], map[])
  }

  /** The bank while the session from ip holds the account, at the given balance. */
  function Holding(ip: string, balance: int): World
  {
    World(map[Acct := Account(Pin, balance)], map[Acct := ip])
  }

  lemma Spaceless()
    ensures ' ' !in Acct && ' ' !in Pin && ' ' !in Other && ' ' !in OtherPin
  {
    assert forall i | 0 <= i < |Acct| :: Acct[i] != ' ';
    assert forall i | 0 <= i < |Other| :: Other[i] != ' ';
  }

  // ---------------------------------------------------------------------------------
  // One account, one session

  lemma Fifty()
    ensures ' ' !in "50" && AsNumeric("50") == Some(Decimal(50, 0))
  {
    assert DigitsValue("50") == 50 by { assert "50"[..1] == "5"; }
    ParseWholeLiteral("50");
  }

  lemma TwoHundred()
    ensures ' ' !in "200" && AsNumeric("200") == Some(Decimal(200, 0))
  {
    assert DigitsValue("200") == 200 by { assert "200"[..2] == "20"; assert "20"[..1] == "2"; }
    ParseWholeLiteral("200");
  }

  lemma HundredFiftyPointZero()
    ensures ' ' !in "150.0" && AsNumeric("150.0") == Some(Decimal(1500, 1))
  {
    assert "150.0" == "150" + "." + "0";
    assert "150" + "0" == "1500";
    assert DigitsValue("1500") == 1500 by {
      assert "1500"[..3] == "150"; assert "150"[..2] == "15"; assert "15"[..1] == "1";
    }
    ParsePointLiteral("150", "0");
  }

  /** The balances of the walk-through, printed. */
  lemma Printed()
    ensures "200\n" + FloatText(15000) == "200\n150.0"
    ensures "200\n" + FloatText(0) == "200\n0.0"
  {
    assert NatText(150) == "150" by {
      assert NatText(15) == NatText(1) + ['5'];
      assert NatText(150) == NatText(15) + ['0'];
    }
    assert FloatText(15000) == "150" + "." + "0";
    assert FloatText(0) == "0" + "." + "0";
  }

  lemma LoginStep(ip: string)
    ensures Process(Opening(), "", ip, "LOGIN " + Acct + " " + Pin) == Return(Reply("200", Holding(ip, 10000), Acct))
  {
    Spaceless();
    LoginRoute(Opening(), "", ip, Acct, Pin);
  }

  lemma DepositStep(ip: string)
    ensures Process(Holding(ip, 10000), Acct, ip, "DEPOSIT " + Acct + " " + "50") == Return(Reply("200", Holding(ip, 15000), Acct))
  {
    var w := Holding(ip, 10000);
    Spaceless();
    Fifty();
    assert AmountIsValid(Decimal(50, 0)) && Cents(Decimal(50, 0)) == 5000;
    DepositRoute(w, Acct, ip, Acct, "50");
    DepositReply(w, Acct, "50");
    assert w.ledger[Acct].balance + 5000 == 15000;
    assert SetBalance(w, Acct, 15000) == Holding(ip, 15000);
  }

  /** The balance of 150.00 prints as "150.0". */
  lemma BalanceStep(ip: string)
    ensures Process(Holding(ip, 15000), Acct, ip, "BALANCE " + Acct) == Return(Reply("200\n150.0", Holding(ip, 15000), Acct))
  {
    Spaceless();
    BalanceRoute(Holding(ip, 15000), Acct, ip, Acct);
    Printed();
  }

  /** Withdrawing more than the balance is refused with '403' and changes nothing. */
  lemma OverdraftStep(ip: string)
    ensures Process(Holding(ip, 15000), Acct, ip, "WITHDRAW " + Acct + " " + "200") == Return(Reply("403", Holding(ip, 15000), Acct))
  {
    var w := Holding(ip, 15000);
    Spaceless();
    TwoHundred();
    assert AmountIsValid(Decimal(200, 0)) && Cents(Decimal(200, 0)) == 20000;
    WithdrawRoute(w, Acct, ip, Acct, "200");
    WithdrawReply(w, Acct, "200");
    assert 20000 > w.ledger[Acct].balance;
  }

  /** Withdrawing exactly the balance is allowed and leaves zero. */
  lemma WithdrawAllStep(ip: string)
    ensures Process(Holding(ip, 15000), Acct, ip, "WITHDRAW " + Acct + " " + "150.0") == Return(Reply("200", Holding(ip, 0), Acct))
  {
    var w := Holding(ip, 15000);
    Spaceless();
    HundredFiftyPointZero();
    assert AmountIsValid(Decimal(1500, 1)) && Cents(Decimal(1500, 1)) == 15000;
    WithdrawRoute(w, Acct, ip, Acct, "150.0");
    WithdrawReply(w, Acct, "150.0");
    assert w.ledger[Acct].balance - 15000 == 0;
    assert SetBalance(w, Acct, 0) == Holding(ip, 0);
  }

  /** An empty balance prints as "0.0". */
  lemma EmptyBalanceStep(ip: string)
    ensures Process(Holding(ip, 0), Acct, ip, "BALANCE " + Acct) == Return(Reply("200\n0.0", Holding(ip, 0), Acct))
  {
    Spaceless();
    BalanceRoute(Holding(ip, 0), Acct, ip, Acct);
    Printed();
  }

  /** The whole walk-through: log in, deposit 50, read 150.0, be refused 200, withdraw
      150.0, read 0.0. */
  lemma Walkthrough(ip: string)
    ensures var r1 := Process(Opening(), "", ip, "LOGIN " + Acct + " " + Pin);
      && r1.Return? && r1.value.response == "200"
      && var r2 := Process(r1.value.world, r1.value.auth, ip, "DEPOSIT " + Acct + " " + "50");
      && r2.Return? && r2.value.response == "200"
      && var r3 := Process(r2.value.world, r2.value.auth, ip, "BALANCE " + Acct);
      && r3.Return? && r3.value.response == "200\n150.0"
      && var r4 := Process(r3.value.world, r3.value.auth, ip, "WITHDRAW " + Acct + " " + "200");
      && r4.Return? && r4.value.response == "403"
      && var r5 := Process(r4.value.world, r4.value.auth, ip, "WITHDRAW " + Acct + " " + "150.0");
      && r5.Return? && r5.value.response == "200"
      && var r6 := Process(r5.value.world, r5.value.auth, ip, "BALANCE " + Acct);
      && r6 == Return(Reply("200\n0.0", Holding(ip, 0), Acct))
  {
    LoginStep(ip);
    DepositStep(ip);
    BalanceStep(ip);
    OverdraftStep(ip);
    WithdrawAllStep(ip);
    EmptyBalanceStep(ip);
  }

  /** A deposit whose amount is not a number ends the server instead of answering. */
  lemma NonNumberCrashes(ip: string)
    ensures Process(Holding(ip, 10000), Acct, ip, "DEPOSIT " + Acct + " abc") == Crash
  {
    Spaceless();
    assert "DEPOSIT " + Acct + " abc" == "DEPOSIT" + " " + Acct + " " + "abc";
    SplitSpaceless("DEPOSIT", Acct, "abc");
    StripNoSpace("abc");
    SplitNoSep("abc", '.');
    assert !IsDigit("abc"[0]);
  }

  /** An account number the bank does not know is answered '400 Unknown Account Number'. */
  lemma UnknownAccount(ip: string)
    ensures Process(Opening(), "", ip, "BALANCE zz-00000") == Return(Reply("400 Unknown Account Number", Opening(), ""))
  {
    var other := "zz-00000";
    assert forall i | 0 <= i < |other| :: other[i] != ' ';
    assert "BALANCE zz-00000" == "BALANCE" + " " + other;
    SplitSpaceless("BALANCE", other, "");
    assert other != Acct by { assert other[0] != Acct[0]; }
  }

  // ---------------------------------------------------------------------------------
  // Two accounts, two sessions

  /** Both accounts, with the given lock registry. */
  function Pair(locks: Locks): World
  {
    World(map[Acct := Account(Pin, 10000), Other := Account(OtherPin, 0)], locks)
  }

  lemma Distinct()
    ensures Acct != Other
  {
    assert Acct[0] != Other[0];
  }

  /** The session from ip1 logs into Acct and then into Other, as written: the registry
      still names ip1 as the holder of Acct, Other is free, and the session is
      authorised for Other. */
  lemma ReLoginAsWritten(ip1: string)
    ensures var r1 := Login(Pair(map[]), "", ip1, Acct, Pin);
      && r1 == Reply("200", Pair(map[Acct := ip1]), Acct)
      && Login(r1.world, r1.auth, ip1, Other, OtherPin) == Reply("200", Pair(map[Acct := ip1]), Other)
  {
    Distinct();
    var marked := MarkBusy(map[Acct := ip1], Other, ip1);
    assert UnmarkBusy(marked, Other) == map[Acct := ip1];
  }

  /** A second session, from ip2, then logs into Other as well and is told '200': two
      sessions are authorised for the same account at once. */
  lemma SecondSessionAdmitted(ip1: string, ip2: string)
    ensures var r := Login(Pair(map[Acct := ip1]), "", ip2, Other, OtherPin);
      && r.response == "200" && r.auth == Other
  {
    Distinct();
  }

  /** When the first session then closes, its `auth` is Other, so closing frees nothing
      and Acct stays locked: any later login to Acct is told it is busy at ip1. */
  lemma StaleLockAfterClose(ip1: string, ip3: string)
    ensures var after := Pair(UnmarkBusy(map[Acct := ip1], Other));
      && after == Pair(map[Acct := ip1])
      && Login(after, "", ip3, Acct, Pin).response == "300\n" + ip1
  {
    Distinct();
  }

  /** With the corrected login the same re-login frees Acct and locks Other, so the
      second session is told that Other is busy at ip1. */
  lemma ReLoginFixed(ip1: string, ip2: string)
    ensures var r1 := LoginFixed(Pair(map[Acct := ip1]), Acct, ip1, Other, OtherPin);
      && r1 == Reply("200", Pair(map[Other := ip1]), Other)
      && LoginFixed(r1.world, "", ip2, Other, OtherPin).response == "300\n" + ip1
  {
    Distinct();
    var marked := MarkBusy(map[Acct := ip1], Other, ip1);
    assert UnmarkBusy(marked, Acct) == map[Other := ip1];
  }

  /** Closing a session that holds an account frees it for the next session. */
  lemma CloseFreesAccount(ip1: string, ip2: string)
    ensures var after := UnmarkBusy(map[Acct := ip1], Acct);
      && after == map[]
      && Login(Pair(after), "", ip2, Acct, Pin) == Reply("200", Pair(map[Acct := ip2]), Acct)
  {
    assert UnmarkBusy(map[Acct := ip1], Acct) == map[];
  }
}
