/** The ATM client's side of the protocol: its copies of the format checks, the frames it
    sends, the decoding of a response frame in `get_from_server`, and how
    `login_to_server` reads the status. */
module Atm {
  import opened Wrappers
  import opened Text
  import opened Utf8
  import opened Validation

  /** `validAcctNumber(acct_num)`. */
  predicate ValidAcctNumber(s: string)
  {
    |s| == 8 && s[2] == '-' && IsAlpha(s[..2]) && IsDigits(s[3..8])
  }

  /** `validPin(pin)`. */
  predicate ValidPin(pin: string)
  {
    |pin| == 4 && IsDigits(pin)
  }

  /** The client accepts exactly the account numbers the server accepts. */
  lemma SameAccountCheck(s: string)
    ensures ValidAcctNumber(s) <==> AcctNumberIsValid(s)
    ensures ValidAcctNumber(s) <==>
      |s| == 8 && IsLetter(s[0]) && IsLetter(s[1]) && s[2] == '-' && forall i | 3 <= i < 8 :: IsDigit(s[i])
  {
    AcctNumberShape(s);
  }

  /** A PIN is valid exactly when it is four digits, as on the server. */
  lemma PinCheck(pin: string)
    ensures ValidPin(pin) <==> |pin| == 4 && forall i | 0 <= i < 4 :: IsDigit(pin[i])
    ensures ValidPin(pin) <==> AcctPinIsValid(pin)
  {
  }

  /** The request frames built at atm_client.py:52, 90, 101 and 126. */
  function LoginRequest(acct: string, pin: string): string { "LOGIN " + acct + " " + pin + "\n\n" }

  function DepositRequest(acct: string, amount: string): string { "DEPOSIT " + acct + " " + amount + "\n\n" }

  function BalanceRequest(acct: string): string { "BALANCE " + acct + "\n\n" }

  function WithdrawRequest(acct: string, amount: string): string { "WITHDRAW " + acct + " " + amount + "\n\n" }

  /** The decode at the end of `get_from_server`: the status code is the first line up
      to its first space, the payload is the second line. None where Python raises:
      bytes that are not UTF-8, or a message with no second line. */
  function GetFromServer(msg: seq<byte>): Option<(string, string)>
  {
    match Decode(msg)
    case None => None
    case Some(text) =>
      var response := Split(text, '\n');
      if |response| < 2 then None
      else Some((SplitOnce(response[0], ' ')[0], response[1]))
  }

  /** `login_to_server`'s reading of the status: (validated, busyIP). */
  function LoginResult(token: string, data: string): (r: (bool, Option<string>))
    ensures r.0 <==> token in {"200", "300"}
    ensures r.1.Some? <==> token == "300"
    ensures r.1.Some? ==> r.1.value == data
  {
    if token == "200" then (true, None)
    else if token == "300" then (true, Some(data))
    else (false, None)
  }

  /** The payload is the second line, whatever follows it, and the status code is read
      off the first. */
  lemma DecodeLines(status: string, payload: string, rest: string)
    requires '\n' !in status && '\n' !in payload
    ensures GetFromServer(Encode(status + "\n" + payload + "\n" + rest)) ==
      Some((SplitOnce(status, ' ')[0], payload))
  {
    var text := status + "\n" + payload + "\n" + rest;
    DecodeEncode(text);
    var tail := payload + "\n" + rest;
    assert text == status + ['\n'] + tail;
    SplitAfter(status, tail, '\n');
    assert tail == payload + ['\n'] + rest;
    SplitAfter(payload, rest, '\n');
  }

  /** The status code is the status line up to its first space: the debug text after the
      space is dropped, and a line without a space is the code itself. */
  lemma StatusCode(code: string, note: string)
    requires ' ' !in code
    ensures SplitOnce(code + " " + note, ' ')[0] == code
    ensures SplitOnce(code, ' ')[0] == code
  {
    assert code + " " + note == code + [' '] + note;
    SplitOnceAt(code, note, ' ');
    SplitNoSep(code, ' ');
  }
}
