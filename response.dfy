/** The text of an HTTP/1.1 response as this server writes it, and a reader
    for it: the reader is the partner that shows each message says what it
    means to say. */
module Response {
  import opened Util
  import opened Wrappers

  /** A status line, a Content-Length header and a body. */
  datatype Reply = Reply(code: nat, reason: string, contentLength: nat, body: string)

  /** The text of such a response. */
  function Message(code: nat, reason: string, contentLength: nat, body: string): string {
    "HTTP/1.1 " + NatToDecimal(code) + " " + reason + "\r\nContent-Length: " + NatToDecimal(contentLength) + "\r\n\r\n" + body
  }

  predicate HasPrefix(s: string, p: string) {
    |p| <= |s| && s[..|p|] == p
  }

  /** Index of the first '\r', or the length when there is none. */
  function LineLength(s: string): (n: nat)
    ensures n <= |s|
  {
    if s == [] || s[0] == '\r' then 0 else LineLength(s[1..]) + 1
  }

  /** Reads a response: "HTTP/1.1 ", then the status line and the header. */
  function ParseResponse(m: string): Option<Reply> {
    if HasPrefix(m, "HTTP/1.1 ") then ParseStatusLine(m[9..]) else None
  }

  /** The code, a space, and the reason up to the end of the line. */
  function ParseStatusLine(s: string): Option<Reply> {
    var c := DigitRun(s);
    if c == 0 || c == |s| || s[c] != ' ' then None
    else
      var rest := s[c + 1..];
      var e := LineLength(rest);
      ParseHeader(DecimalValue(s[..c]), rest[..e], rest[e..])
  }

  /** "Content-Length: ", its digits and a blank line; the rest is the body. */
  function ParseHeader(code: nat, reason: string, s: string): Option<Reply> {
    if !HasPrefix(s, "\r\nContent-Length: ") then None
    else
      var rest := s[18..];
      var n := DigitRun(rest);
      if n == 0 || !HasPrefix(rest[n..], "\r\n\r\n") then None
      else Some(Reply(code, reason, DecimalValue(rest[..n]), rest[n + 4..]))
  }

  lemma PrefixOf(p: string, rest: string)
    ensures HasPrefix(p + rest, p) && (p + rest)[|p|..] == rest
  {
    assert (p + rest)[..|p|] == p;
  }

  lemma {:induction false} LineLengthOf(reason: string, rest: string)
    requires forall i :: 0 <= i < |reason| ==> reason[i] != '\r'
    requires |rest| > 0 && rest[0] == '\r'
    ensures LineLength(reason + rest) == |reason|
    decreases |reason|
  {
    if reason != [] {
      assert (reason + rest)[1..] == reason[1..] + rest;
      LineLengthOf(reason[1..], rest);
    }
  }

  lemma ParseHeaderOf(code: nat, reason: string, contentLength: nat, body: string)
    ensures ParseHeader(code, reason, "\r\nContent-Length: " + (NatToDecimal(contentLength) + ("\r\n\r\n" + body)))
         == Some(Reply(code, reason, contentLength, body))
  {
    var d := NatToDecimal(contentLength);
    var r5 := "\r\n\r\n" + body;
    PrefixOf("\r\nContent-Length: ", d + r5);
    DigitRunOfDecimal(contentLength, r5);
    PrefixOf(d, r5);
    PrefixOf("\r\n\r\n", body);
    assert (d + r5)[|d| + 4..] == body;
  }

  lemma StatusLineCode(code: nat, r2: string)
    ensures ParseStatusLine(NatToDecimal(code) + (" " + r2)) == ParseHeader(code, r2[..LineLength(r2)], r2[LineLength(r2)..])
  {
    var d := NatToDecimal(code);
    var s := d + (" " + r2);
    DigitRunOfDecimal(code, " " + r2);
    assert s[|d|] == ' ';
    assert s[|d| + 1..] == r2;
  }

  lemma ParseStatusLineOf(code: nat, reason: string, tail: string)
    requires forall i :: 0 <= i < |reason| ==> reason[i] != '\r'
    requires |tail| > 0 && tail[0] == '\r'
    ensures ParseStatusLine(NatToDecimal(code) + (" " + (reason + tail))) == ParseHeader(code, reason, tail)
  {
    StatusLineCode(code, reason + tail);
    LineLengthOf(reason, tail);
    PrefixOf(reason, tail);
  }

  lemma MessageAssoc(code: nat, reason: string, contentLength: nat, body: string)
    ensures Message(code, reason, contentLength, body)
         == "HTTP/1.1 " + (NatToDecimal(code) + (" " + (reason + ("\r\nContent-Length: " + (NatToDecimal(contentLength) + ("\r\n\r\n" + body))))))
  {
  }

  /** Reading back a response text gives back its parts, whenever the reason
      phrase stays on its line. */
  lemma ParseMessage(code: nat, reason: string, contentLength: nat, body: string)
    requires forall i :: 0 <= i < |reason| ==> reason[i] != '\r'
    ensures ParseResponse(Message(code, reason, contentLength, body)) == Some(Reply(code, reason, contentLength, body))
  {
    var tail := "\r\nContent-Length: " + (NatToDecimal(contentLength) + ("\r\n\r\n" + body));
    var r1 := NatToDecimal(code) + (" " + (reason + tail));
    MessageAssoc(code, reason, contentLength, body);
    PrefixOf("HTTP/1.1 ", r1);
    ParseStatusLineOf(code, reason, tail);
    ParseHeaderOf(code, reason, contentLength, body);
  }

}
