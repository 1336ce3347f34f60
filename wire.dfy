/** Both ends of the protocol together: the frames the client builds reach the dispatcher
    as the tokens it meant, and the frames the server queues decode on the client to the
    status code and payload the server meant. */
module Wire {
  import opened Wrappers
  import opened Text
  import opened Utf8
  import opened Validation
  import opened Ledger
  import opened Dispatch
  import opened Connection
  import opened Atm
  import opened Responses

  // ---------------------------------------------------------------------------------
  // Server to client

  /** A response with a payload line decodes to its code and that payload. */
  lemma PayloadFrameDecodes(code: string, payload: string)
    requires ' ' !in code && '\n' !in code && '\n' !in payload
    ensures GetFromServer(Frame(code + "\n" + payload)) == Some((code, payload))
  {
    assert code + "\n" + payload + "\n\n" == code + "\n" + payload + "\n" + "\n";
    DecodeLines(code, payload, "\n");
    StatusCode(code, "");
  }

  /** A response without a payload line decodes to its code, any debug text after the
      space dropped, and the empty payload. */
  lemma BareFrameDecodes(code: string, note: string)
    requires ' ' !in code && '\n' !in code && '\n' !in note
    ensures GetFromServer(Frame(code)) == Some((code, ""))
    ensures GetFromServer(Frame(code + " " + note)) == Some((code, ""))
  {
    assert code + "\n\n" == code + "\n" + "" + "\n" + "";
    DecodeLines(code, "", "");
    assert '\n' !in code + " " + note;
    assert code + " " + note + "\n\n" == (code + " " + note) + "\n" + "" + "\n" + "";
    DecodeLines(code + " " + note, "", "");
    StatusCode(code, note);
  }

  /** The printed balance is a single line. */
  lemma FloatTextOneLine(c: int)
    ensures '\n' !in FloatText(c)
  {
    var n := if c < 0 then -c else c;
    var whole := NatText(n / 100);
    assert forall i | 0 <= i < |whole| :: IsDigit(whole[i]);
    assert '\n' !in whole;
  }

  /** No holder address spans lines. */
  ghost predicate HoldersOneLine(w: World)
  {
    forall k | k in w.locks :: '\n' !in w.locks[k]
  }

  /** Every response the server gives is one of those. */
  lemma ProcessResponsesKnown(w: World, auth: string, ip: string, request: string)
    requires HoldersOneLine(w) && Process(w, auth, ip, request).Return?
    ensures KnownResponse(Process(w, auth, ip, request).value.response)
  {
    FixedResponsesKnown();
    var tokens := Split(request, ' ');
    if |tokens| >= 2 && tokens[1] in w.ledger {
      var acct := tokens[1];
      if tokens[0] == "LOGIN" && |tokens| >= 3 && w.ledger[acct].pin == tokens[2] && acct in w.locks {
        assert "300\n" + w.locks[acct] == "300" + "\n" + w.locks[acct];
        PayloadKnown("300", w.locks[acct]);
      } else if tokens[0] == "BALANCE" && acct == auth {
        var text := FloatText(w.ledger[acct].balance);
        FloatTextOneLine(w.ledger[acct].balance);
        assert "200\n" + text == "200" + "\n" + text;
        PayloadKnown("200", text);
      }
    }
  }

  /** A known response decodes on the client to its status code, and to its payload line
      when a newline follows the code. */
  lemma KnownResponseDecodes(resp: string)
    requires KnownResponse(resp)
    ensures var r := GetFromServer(Frame(resp));
      && r.Some? && r.value.0 == resp[..3] && r.value.0 in Codes
      && r.value.1 == if |resp| >= 4 && resp[3] == '\n' then resp[4..] else ""
  {
    var code := resp[..3];
    assert ' ' !in code && '\n' !in code;
    if |resp| == 3 {
      assert resp == code;
      BareFrameDecodes(code, "");
    } else if resp[3] == ' ' {
      assert resp == code + " " + resp[4..];
      BareFrameDecodes(code, resp[4..]);
    } else {
      assert resp == code + "\n" + resp[4..];
      PayloadFrameDecodes(code, resp[4..]);
    }
  }

  /** Every response the server gives decodes on the client to one of the six status
      codes. */
  lemma ResponsesDecode(w: World, auth: string, ip: string, request: string)
    requires HoldersOneLine(w) && Process(w, auth, ip, request).Return?
    ensures var r := GetFromServer(Frame(Process(w, auth, ip, request).value.response));
      r.Some? && r.value.0 in Codes
  {
    ProcessResponsesKnown(w, auth, ip, request);
    KnownResponseDecodes(Process(w, auth, ip, request).value.response);
  }

  /** What the client's `login_to_server` concludes from the server's answer: validated
      exactly when the PIN is right, and given the holder's address exactly when the
      account was held. */
  lemma LoginEndToEnd(w: World, auth: string, ip: string, acct: string, pin: string)
    requires acct in w.ledger && HoldersOneLine(w)
    ensures var r := GetFromServer(Frame(Login(w, auth, ip, acct, pin).response));
      && r.Some?
      && LoginResult(r.value.0, r.value.1) ==
         (pin == w.ledger[acct].pin,
          if pin == w.ledger[acct].pin && acct in w.locks then Some(w.locks[acct]) else None)
  {
    var resp := Login(w, auth, ip, acct, pin).response;
    if pin != w.ledger[acct].pin {
      assert resp == "405";
      BareFrameDecodes("405", "");
    } else if acct in w.locks {
      assert resp == "300" + "\n" + w.locks[acct];
      PayloadFrameDecodes("300", w.locks[acct]);
    } else {
      assert resp == "200";
      BareFrameDecodes("200", "");
    }
  }

  /** The balance text the client receives parses back with `as_numeric` to a valid
      amount of exactly the stored number of cents. */
  lemma BalanceEndToEnd(w: World, acct: string)
    requires acct in w.ledger && w.ledger[acct].balance >= 0
    ensures var r := GetFromServer(Frame(GetBal(w, acct, acct)));
      && r == Some(("200", FloatText(w.ledger[acct].balance)))
      && AsNumeric(r.value.1).Some?
      && AmountIsValid(AsNumeric(r.value.1).value)
      && Cents(AsNumeric(r.value.1).value) == w.ledger[acct].balance
  {
    var c := w.ledger[acct].balance;
    FloatTextOneLine(c);
    assert GetBal(w, acct, acct) == "200" + "\n" + FloatText(c);
    PayloadFrameDecodes("200", FloatText(c));
    BalanceTextParses(c);
  }

  /** A non-negative balance, printed, parses back to itself. */
  lemma BalanceTextParses(c: int)
    requires c >= 0
    ensures AsNumeric(FloatText(c)).Some?
    ensures AmountIsValid(AsNumeric(FloatText(c)).value) && Cents(AsNumeric(FloatText(c)).value) == c
  {
    assert FloatText(c) == CentsText(c);
    CentsTextParses(c);
  }

  // ---------------------------------------------------------------------------------
  // Client to server

  /** The client's LOGIN frame, received whole, runs `login` with the account and PIN. */
  lemma LoginRequestArrives(w: World, c: Conn, ip: string, acct: string, pin: string)
    requires c.inb == [] && ' ' !in acct && ' ' !in pin && acct in w.ledger
    ensures var r := Login(w, c.auth, ip, acct, pin);
      Receive(w, c, ip, Encode(LoginRequest(acct, pin))) == (Open, r.world, Conn([], c.outb + Frame(r.response), r.auth))
  {
    var text := "LOGIN " + acct + " " + pin;
    assert LoginRequest(acct, pin) == text + "\n\n";
    LoginRoute(w, c.auth, ip, acct, pin);
    ReceiveWholeFrame(w, c, ip, text);
  }

  /** The client's BALANCE frame, received whole, runs `get_bal` on the account. */
  lemma BalanceRequestArrives(w: World, c: Conn, ip: string, acct: string)
    requires c.inb == [] && ' ' !in acct && acct in w.ledger
    ensures Receive(w, c, ip, Encode(BalanceRequest(acct))) ==
      (Open, w, Conn([], c.outb + Frame(GetBal(w, c.auth, acct)), c.auth))
  {
    var text := "BALANCE " + acct;
    assert BalanceRequest(acct) == text + "\n\n";
    BalanceRoute(w, c.auth, ip, acct);
    ReceiveWholeFrame(w, c, ip, text);
  }

  /** The client's DEPOSIT frame, received whole, runs `deposit` with the amount text. */
  lemma DepositRequestArrives(w: World, c: Conn, ip: string, acct: string, amount: string)
    requires c.inb == [] && ' ' !in acct && ' ' !in amount && acct in w.ledger
    ensures Receive(w, c, ip, Encode(DepositRequest(acct, amount))) ==
      match Deposit(w, c.auth, acct, amount)
      case Crash => (Crashed, w, c.(inb := Encode(DepositRequest(acct, amount))))
      case Return(r) => (Open, r.world, Conn([], c.outb + Frame(r.response), r.auth))
  {
    var text := "DEPOSIT " + acct + " " + amount;
    assert DepositRequest(acct, amount) == text + "\n\n";
    DepositRoute(w, c.auth, ip, acct, amount);
    ReceiveWholeFrame(w, c, ip, text);
  }

  /** The client's WITHDRAW frame, received whole, runs `withdraw` with the amount text. */
  lemma WithdrawRequestArrives(w: World, c: Conn, ip: string, acct: string, amount: string)
    requires c.inb == [] && ' ' !in acct && ' ' !in amount && acct in w.ledger
    ensures Receive(w, c, ip, Encode(WithdrawRequest(acct, amount))) ==
      match Withdraw(w, c.auth, acct, amount)
      case Crash => (Crashed, w, c.(inb := Encode(WithdrawRequest(acct, amount))))
      case Return(r) => (Open, r.world, Conn([], c.outb + Frame(r.response), r.auth))
  {
    var text := "WITHDRAW " + acct + " " + amount;
    assert WithdrawRequest(acct, amount) == text + "\n\n";
    WithdrawRoute(w, c.auth, ip, acct, amount);
    ReceiveWholeFrame(w, c, ip, text);
  }
}
