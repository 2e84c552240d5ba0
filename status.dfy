/** status.h: the request outcome codes and the fixed response texts sent for
    them. */
module Status {
  import opened Util
  import opened Wrappers
  import opened Response

  /** status_t. SUSPEND and CONN_CLOSED are internal outcomes; the others are
      HTTP status codes. */
  datatype Status = ConnClosed | Suspend | Ok | Created | BadRequest | Forbidden | FileNotFound | IntErr | NotImpl

  /** The statuses that are HTTP outcomes (and have a message of their own). */
  predicate IsHttp(s: Status) {
    !(s == ConnClosed || s == Suspend)
  }

  /** The enumerator values of status_t. */
  function Value(s: Status): (v: int)
    ensures IsHttp(s) <==> 200 <= v <= 599
    ensures !IsHttp(s) ==> v <= 0
  {
    match s
    case ConnClosed => -1
    case Suspend => 0
    case Ok => 200
    case Created => 201
    case BadRequest => 400
    case Forbidden => 403
    case FileNotFound => 404
    case IntErr => 500
    case NotImpl => 501
  }

  /** No two statuses share an enumerator value. */
  lemma ValueInjective(a: Status, b: Status)
    requires Value(a) == Value(b)
    ensures a == b
  {
  }

  // ---------------------------------------------------------------------------
  // The response texts

  // The texts are written in the pieces a response is made of; each is the
  // same character sequence as the macro of the same name.
  const GET_OK_HEAD := "HTTP/1.1 " + "200" + " " + "OK" + "\r\nContent-Length: "
  const OK_MSG := "HTTP/1.1 " + "200" + " " + "OK" + "\r\nContent-Length: " + "3" + "\r\n\r\n" + "OK\n"
  const CREATED_MSG := "HTTP/1.1 " + "201" + " " + "Created" + "\r\nContent-Length: " + "8" + "\r\n\r\n" + "Created\n"
  const FORBIDDEN_MSG := "HTTP/1.1 " + "403" + " " + "Forbidden" + "\r\nContent-Length: " + "10" + "\r\n\r\n" + "Forbidden\n"
  const NOT_FOUND_MSG := "HTTP/1.1 " + "404" + " " + "File Not Found" + "\r\nContent-Length: " + "15" + "\r\n\r\n" + "File Not Found\n"
  const BAD_REQ_MSG := "HTTP/1.1 " + "400" + " " + "Bad Request" + "\r\nContent-Length: " + "12" + "\r\n\r\n" + "Bad Request\n"
  const INTERNAL_MSG := "HTTP/1.1 " + "500" + " " + "Internal Server Error" + "\r\nContent-Length: " + "22" + "\r\n\r\n" + "Internal Server Error\n"
  const NOT_IMPL_MSG := "HTTP/1.1 " + "501" + " " + "Not Implemented" + "\r\nContent-Length: " + "16" + "\r\n\r\n" + "Not Implemented\n"

  /** The reason phrase of each fixed message; statuses without a message of
      their own share Bad Request's. */
  function Reason(s: Status): (r: string)
    ensures forall i :: 0 <= i < |r| ==> r[i] != '\r'
  {
    match s
    case Ok => "OK"
    case Created => "Created"
    case Forbidden => "Forbidden"
    case FileNotFound => "File Not Found"
    case BadRequest => "Bad Request"
    case IntErr => "Internal Server Error"
    case NotImpl => "Not Implemented"
    case _ => "Bad Request"
  }

  /** The HTTP code a status is answered with. */
  function HttpCode(s: Status): int {
    if IsHttp(s) then Value(s) else 400
  }

  /** GET_OK_MSG formatted with the file length: a 200 header with no body,
      the file's bytes follow separately. */
  function GetOkMsg(contlen: int): (msg: string)
    ensures contlen >= 0 ==> msg == Message(200, "OK", contlen, "")
  {
    GetOkHeadShape();
    GET_OK_HEAD + IntToDecimal(contlen) + "\r\n\r\n"
  }

  /** The header sent before a file reads back as a 200 response announcing
      exactly the file length, with nothing after the blank line. */
  lemma GetOkMsgReadsBack(contlen: int)
    requires contlen >= 0
    ensures ParseResponse(GetOkMsg(contlen)) == Some(Reply(200, "OK", contlen, ""))
  {
    ParseMessage(200, "OK", contlen, "");
  }

  /** resolve_status_msg: the fixed message of a status; every status without
      a message of its own (SUSPEND and CONN_CLOSED included) gets Bad
      Request. */
  function ResolveStatusMsg(status: Status): string {
    match status
    case Ok => OK_MSG
    case Created => CREATED_MSG
    case BadRequest => BAD_REQ_MSG
    case Forbidden => FORBIDDEN_MSG
    case FileNotFound => NOT_FOUND_MSG
    case IntErr => INTERNAL_MSG
    case NotImpl => NOT_IMPL_MSG
    case _ => BAD_REQ_MSG
  }

  /** Every fixed message is a response with the status's HTTP code and
      reason, whose body is the reason and a newline. */
  lemma ResolveStatusMsgShape(status: Status)
    ensures ResolveStatusMsg(status) == Message(HttpCode(status), Reason(status), |Reason(status)| + 1, Reason(status) + "\n")
  {
    if status == Ok || status == Created {
      SuccessShapes(status);
    } else if status == IntErr || status == NotImpl {
      ServerErrorShapes(status);
    } else {
      ClientErrorShapes(status);
    }
  }

  lemma SuccessShapes(status: Status)
    requires status == Ok || status == Created
    ensures ResolveStatusMsg(status) == Message(HttpCode(status), Reason(status), |Reason(status)| + 1, Reason(status) + "\n")
  {
    if status == Ok { OkShape(); } else { CreatedShape(); }
  }

  lemma ServerErrorShapes(status: Status)
    requires status == IntErr || status == NotImpl
    ensures ResolveStatusMsg(status) == Message(HttpCode(status), Reason(status), |Reason(status)| + 1, Reason(status) + "\n")
  {
    if status == IntErr { IntErrShape(); } else { NotImplShape(); }
  }

  lemma ClientErrorShapes(status: Status)
    requires !(status == Ok || status == Created || status == IntErr || status == NotImpl)
    ensures ResolveStatusMsg(status) == Message(HttpCode(status), Reason(status), |Reason(status)| + 1, Reason(status) + "\n")
  {
    match status
    case Forbidden => ForbiddenShape();
    case FileNotFound => FileNotFoundShape();
    case _ => BadRequestShape();
  }

  /** Every fixed message reads back as a response with the status's HTTP
      code and reason, whose Content-Length is the length of what follows the
      blank line. */
  lemma ResolveStatusMsgReadsBack(status: Status)
    ensures ParseResponse(ResolveStatusMsg(status)) == Some(Reply(HttpCode(status), Reason(status), |Reason(status)| + 1, Reason(status) + "\n"))
  {
    ResolveStatusMsgShape(status);
    ParseMessage(HttpCode(status), Reason(status), |Reason(status)| + 1, Reason(status) + "\n");
  }

  // ---------------------------------------------------------------------------
  // The texts of status.h have the shape of Message.

  lemma GetOkHeadShape()
    ensures GET_OK_HEAD == "HTTP/1.1 " + NatToDecimal(200) + " " + "OK" + "\r\nContent-Length: "
  {
    assert NatToDecimal(200) == "200" by { ShortDecimal(200); }
  }

  lemma OkShape()
    ensures OK_MSG == Message(HttpCode(Ok), Reason(Ok), |Reason(Ok)| + 1, Reason(Ok) + "\n")
  {
    assert NatToDecimal(200) == "200" by { ShortDecimal(200); }
    assert NatToDecimal(3) == "3" by { ShortDecimal(3); }
    assert HttpCode(Ok) == 200;
    assert Reason(Ok) == "OK";
    assert "OK" + "\n" == "OK\n";
  }

  lemma CreatedShape()
    ensures CREATED_MSG == Message(HttpCode(Created), Reason(Created), |Reason(Created)| + 1, Reason(Created) + "\n")
  {
    assert NatToDecimal(201) == "201" by { ShortDecimal(201); }
    assert NatToDecimal(8) == "8" by { ShortDecimal(8); }
    assert HttpCode(Created) == 201;
    assert Reason(Created) == "Created";
    assert "Created" + "\n" == "Created\n";
  }

  lemma ForbiddenShape()
    ensures FORBIDDEN_MSG == Message(HttpCode(Forbidden), Reason(Forbidden), |Reason(Forbidden)| + 1, Reason(Forbidden) + "\n")
  {
    assert NatToDecimal(403) == "403" by { ShortDecimal(403); }
    assert NatToDecimal(10) == "10" by { ShortDecimal(10); }
    assert HttpCode(Forbidden) == 403;
    assert Reason(Forbidden) == "Forbidden";
    assert "Forbidden" + "\n" == "Forbidden\n";
  }

  lemma FileNotFoundShape()
    ensures NOT_FOUND_MSG == Message(HttpCode(FileNotFound), Reason(FileNotFound), |Reason(FileNotFound)| + 1, Reason(FileNotFound) + "\n")
  {
    assert NatToDecimal(404) == "404" by { ShortDecimal(404); }
    assert NatToDecimal(15) == "15" by { ShortDecimal(15); }
    assert HttpCode(FileNotFound) == 404;
    assert Reason(FileNotFound) == "File Not Found";
    assert "File Not Found" + "\n" == "File Not Found\n";
  }

  lemma BadRequestShape()
    ensures BAD_REQ_MSG == Message(HttpCode(BadRequest), Reason(BadRequest), |Reason(BadRequest)| + 1, Reason(BadRequest) + "\n")
  {
    assert NatToDecimal(400) == "400" by { ShortDecimal(400); }
    assert NatToDecimal(12) == "12" by { ShortDecimal(12); }
    assert HttpCode(BadRequest) == 400;
    assert Reason(BadRequest) == "Bad Request";
    assert "Bad Request" + "\n" == "Bad Request\n";
  }

  lemma IntErrShape()
    ensures INTERNAL_MSG == Message(HttpCode(IntErr), Reason(IntErr), |Reason(IntErr)| + 1, Reason(IntErr) + "\n")
  {
    assert NatToDecimal(500) == "500" by { ShortDecimal(500); }
    assert NatToDecimal(22) == "22" by { ShortDecimal(22); }
    assert HttpCode(IntErr) == 500;
    assert Reason(IntErr) == "Internal Server Error";
    assert "Internal Server Error" + "\n" == "Internal Server Error\n";
  }

  lemma NotImplShape()
    ensures NOT_IMPL_MSG == Message(HttpCode(NotImpl), Reason(NotImpl), |Reason(NotImpl)| + 1, Reason(NotImpl) + "\n")
  {
    assert NatToDecimal(501) == "501" by { ShortDecimal(501); }
    assert NatToDecimal(16) == "16" by { ShortDecimal(16); }
    assert HttpCode(NotImpl) == 501;
    assert Reason(NotImpl) == "Not Implemented";
    assert "Not Implemented" + "\n" == "Not Implemented\n";
  }
}
