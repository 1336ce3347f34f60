/** The shape of the responses the server sends: a status code alone, with a debug note
    after a space, or with a payload line after a newline. */
module Responses {
  /** The six status codes of the protocol. */
  const Codes: set<string> := {"200", "300", "400", "401", "403", "405"}

  /** No character of the text is a newline. */
  predicate OneLine(s: string)
  {
    forall i | 0 <= i < |s| :: s[i] != '\n'
  }

  /** A status code alone, followed by a space and a one-line note, or followed by a
      newline and a one-line payload. */
  ghost predicate KnownResponse(resp: string)
  {
    && |resp| >= 3 && resp[..3] in Codes
    && (|resp| == 3 || ((resp[3] == ' ' || resp[3] == '\n') && forall i | 4 <= i < |resp| :: resp[i] != '\n'))
  }

  /** The fixed responses of the handlers are known ones. */
  lemma FixedResponsesKnown()
    ensures KnownResponse("200") && KnownResponse("400") && KnownResponse("401")
    ensures KnownResponse("403") && KnownResponse("405")
    ensures KnownResponse("400 Unknown Account Number")
    ensures KnownResponse("400 Invalid Deposit Amount")
    ensures KnownResponse("400 Invalid Withdrawl Amount")
  {
    assert "200"[..3] == "200" && "400"[..3] == "400" && "401"[..3] == "401";
    assert "403"[..3] == "403" && "405"[..3] == "405";
    assert "400 Unknown Account Number"[..3] == "400";
    NoteLineKnown("400 Unknown Account Number");
    assert "400 Invalid Deposit Amount"[..3] == "400";
    NoteLineKnown("400 Invalid Deposit Amount");
    assert "400 Invalid Withdrawl Amount"[..3] == "400";
    NoteLineKnown("400 Invalid Withdrawl Amount");
  }

  /** A one-line text that starts with a code and a space is a known response. */
  lemma NoteLineKnown(resp: string)
    requires |resp| >= 4 && resp[..3] in Codes && resp[3] == ' ' && OneLine(resp)
    ensures KnownResponse(resp)
  {
  }

  /** A code, a newline and a one-line payload is a known response. */
  lemma PayloadKnown(code: string, payload: string)
    requires code in Codes && '\n' !in payload
    ensures KnownResponse(code + "\n" + payload)
  {
    var resp := code + "\n" + payload;
    assert resp[..3] == code && resp[3] == '\n' && resp[4..] == payload;
  }
}
