/** request.c: one HTTP request on one connection, taken step by step. The
    header arrives in a fixed buffer, is parsed, and what follows the header
    is the start of the body. Each step records its outcome in status and
    where the request stands in state; SUSPEND means the socket had nothing
    (or could take nothing) and the same step is to run again later.

    The regular-expression matches are inputs (the offsets regexec reports);
    the socket is a value of module Io, and the bytes of the files a request
    reads and writes are values the caller passes in and gets back. */
module Request {
  import opened Wrappers
  import opened Util
  import opened Response
  import opened Status
  import opened Io

  /** REQSIZE: the header buffer's capacity. */
  const REQSIZE: nat := 2048
  /** BLOCK: the chunk size of body transfers. */
  const BLOCK: nat := 4096
  /** END_RE, the blank line ending the header; also strcontains' needle. */
  const END_CRLF: string := "\r\n\r\n"
  /** The longest object name a request may carry. */
  const MAX_OBJECT: nat := 19

  /** method_t; NoMethod is NONE. */
  datatype Method = NoMethod | Get | Put | Append

  /** state_t */
  datatype State = RecvHeader | ParseHeader | HandleRequest | OpenFile | SendAck | SendBody
                 | RecvRemBody | RecvBody | WriteBody | Done

  /** reqline_t */
  datatype ReqLine = ReqLine(reqMethod: Method, objectName: string, version: string)

  /** fields_t: the Request-Id and Content-Length fields. */
  datatype Fields = Fields(reqid: int, contlen: int)

  /** object_t: the object file's descriptor, the byte count an APPEND
      copies, and the status a PUT answers with. */
  datatype ObjectFile = ObjectFile(fd: int, size: int, status: Status)

  // ---------------------------------------------------------------------------
  // What regexec reports

  /** A match of the request-line pattern against the header: the lengths
      and starts of the method, object and version groups, where the whole
      match ends, and whether its optional final CRLF matched (a request with
      no header fields). The method group starts the buffer. */
  datatype LineMatch = LineMatch(methodLen: nat, objectStart: nat, objectLen: nat,
                                 versionStart: nat, versionLen: nat, end: nat, bare: bool)

  /** A match of the field-line pattern at the current field: where the value
      group starts and how long it is (from the field's start), where the
      whole match ends, and whether its optional final CRLF matched (the last
      field). */
  datatype FieldMatch = FieldMatch(valueStart: nat, valueLen: nat, end: nat, last: bool)

  /** Everything the regular expressions report while one header is parsed:
      whether the patterns compiled, the request-line match (None: no
      match) and, one per field line in order, the field match (None: no
      match). */
  datatype Matches = Matches(compiled: bool, line: Option<LineMatch>, fields: seq<Option<FieldMatch>>)

  // ---------------------------------------------------------------------------
  // C strings

  /** The C string held in a character buffer: up to its first NUL. */
  function CStr(s: string): (r: string)
    ensures |r| <= |s| && forall i :: 0 <= i < |r| ==> r[i] != '\0'
  {
    s[..CLength(s)]
  }

  /** The C string that starts k characters into s. */
  function Suffix(s: string, k: nat): string {
    if k <= |s| then s[k..] else []
  }

  /** strndup(s, n): at most n characters of the C string s. */
  function Strndup(s: string, n: nat): (r: string)
    ensures |r| <= n && |r| <= |s|
  {
    if n <= |s| then s[..n] else s
  }

  // ---------------------------------------------------------------------------
  // parse_http_request, as a function of the header text

  /** The method a request-line method name stands for: only the all-capital
      and all-small spellings are recognised. */
  function MethodOf(name: string): Method {
    if name == "GET" || name == "get" then Get
    else if name == "PUT" || name == "put" then Put
    else if name == "APPEND" || name == "append" then Append
    else NoMethod
  }

  /** The request fields parse_http_request reads and writes. */
  datatype Parsed = Parsed(status: Status, state: State, reqline: ReqLine, fields: Fields,
                           reqeo: nat, rembytes: int, remout: bool)

  /** Where the field loop stops: ok is false when a field line did not
      match; fields holds the Content-Length and Request-Id seen so far. */
  datatype Scan = Scan(ok: bool, fields: Fields)

  /** What one field line does: a line starting with "Content-Length" sets
      contlen (strtoint64u of its value), one starting with "Request-Id"
      sets reqid (strtouint32); any other field changes neither. */
  function FieldStep(at: string, f: FieldMatch, fl: Fields): (r: Fields)
    ensures r.contlen == fl.contlen || r.contlen == INT64_MIN || 0 <= r.contlen <= INT64_MAX
    ensures 0 <= fl.reqid <= UINT32_MAX ==> 0 <= r.reqid <= UINT32_MAX
    ensures !HasPrefix(at, "Content-Length") ==> r.contlen == fl.contlen
    ensures !HasPrefix(at, "Request-Id") ==> r.reqid == fl.reqid
  {
    var value := Strndup(Suffix(at, f.valueStart), f.valueLen);
    Fields(if HasPrefix(at, "Request-Id") then StrToUint32(value) else fl.reqid,
           if HasPrefix(at, "Content-Length") then StrToInt64u(value) else fl.contlen)
  }

  /** The field loop from the field starting at ptr on, one match per field
      line; a later field overrides an earlier one. */
  function ScanFields(text: string, ptr: nat, ms: seq<Option<FieldMatch>>, fl: Fields): (r: Scan)
    ensures r.fields.contlen == fl.contlen || r.fields.contlen == INT64_MIN || 0 <= r.fields.contlen <= INT64_MAX
    ensures 0 <= fl.reqid <= UINT32_MAX ==> 0 <= r.fields.reqid <= UINT32_MAX
    decreases |ms|
  {
    if ms == [] || ms[0].None? then Scan(false, fl)
    else
      var f := ms[0].value;
      var next := FieldStep(Suffix(text, ptr), f, fl);
      if f.last then Scan(true, next) else ScanFields(text, ptr + f.end, ms[1..], next)
  }

  /** header.size - match[0].rm_eo: uint32_t arithmetic. */
  function Remaining(size: nat, eo: nat): (r: nat)
    ensures eo <= size < 0x1_0000_0000 ==> r == size - eo
  {
    (size - eo) % 0x1_0000_0000
  }

  /** What parse_http_request leaves in the request, given the header text,
      header.size, the fields before and the matches. */
  function ParseSpec(text: string, size: nat, p: Parsed, m: Matches): (q: Parsed)
    ensures q.status == Ok || q.status == IntErr || q.status == BadRequest || q.status == NotImpl
    ensures q.status == Ok <==> q.state == HandleRequest
    ensures q.status != Ok ==> q.state == Done
  {
    if !m.compiled then p.(status := IntErr, state := Done)
    else if m.line.None? then p.(status := BadRequest, state := Done)
    else ParseLine(text, size, p, m.line.value, m.fields)
  }

  /** The checks on the request line: method, object length, and a request
      without fields. */
  function ParseLine(text: string, size: nat, p: Parsed, l: LineMatch, fields: seq<Option<FieldMatch>>): (q: Parsed)
    ensures q.status == Ok || q.status == BadRequest || q.status == NotImpl
    ensures q.status == Ok <==> q.state == HandleRequest
    ensures q.status != Ok ==> q.state == Done
  {
    var meth := MethodOf(Strndup(text, l.methodLen));
    if meth == NoMethod then p.(status := NotImpl, state := Done)
    else if l.objectLen > MAX_OBJECT then p.(reqline := p.reqline.(reqMethod := meth), status := BadRequest, state := Done)
    else
      var q := p.(reqline := ReqLine(meth, Strndup(Suffix(text, l.objectStart), l.objectLen),
                                     Strndup(Suffix(text, l.versionStart), l.versionLen)));
      if l.bare then
        if meth != Get then q.(status := BadRequest, state := Done) else q.(status := Ok, state := HandleRequest)
      else ParseFields(text, size, q, ScanFields(text, l.end, fields, q.fields))
  }

  /** After the field loop (f): the Content-Length check and the end of the
      header. */
  function ParseFields(text: string, size: nat, p: Parsed, f: Scan): (q: Parsed)
    ensures q.status == Ok || q.status == BadRequest
    ensures q.status == Ok <==> q.state == HandleRequest
    ensures q.status != Ok ==> q.state == Done
  {
    var q := p.(fields := f.fields);
    if !f.ok then q.(status := BadRequest, state := Done)
    else if q.fields.contlen < 0 && q.reqline.reqMethod != Get then q.(status := BadRequest, state := Done)
    else
      match FirstOccurrence(text, END_CRLF)
      case None => q.(status := BadRequest, state := Done)
      case Some(i) =>
        var eo := i + |END_CRLF|;
        var rem := Remaining(size, eo);
        var rem := if q.fields.contlen < rem then q.fields.contlen else rem;
        q.(reqeo := eo, rembytes := rem, remout := rem > 0, status := Ok, state := HandleRequest)
  }

  /** The request line's method and object decide before anything else:
      NOT_IMPL exactly when the method name is none of the six spellings. */
  lemma ParseNotImplemented(text: string, size: nat, p: Parsed, m: Matches)
    ensures ParseSpec(text, size, p, m).status == NotImpl <==>
            m.compiled && m.line.Some? && MethodOf(Strndup(text, m.line.value.methodLen)) == NoMethod
  {
  }

  /** An object name longer than 19 characters is a bad request. */
  lemma ParseLongObject(text: string, size: nat, p: Parsed, m: Matches)
    requires m.compiled && m.line.Some? && MethodOf(Strndup(text, m.line.value.methodLen)) != NoMethod
    requires m.line.value.objectLen > MAX_OBJECT
    ensures ParseSpec(text, size, p, m).status == BadRequest && ParseSpec(text, size, p, m).state == Done
  {
  }

  /** Only a GET may come without header fields. */
  lemma ParseBare(text: string, size: nat, p: Parsed, m: Matches)
    requires m.compiled && m.line.Some? && m.line.value.bare && m.line.value.objectLen <= MAX_OBJECT
    ensures var q := ParseSpec(text, size, p, m);
            MethodOf(Strndup(text, m.line.value.methodLen)) == Get ==> q.status == Ok && q.state == HandleRequest
    ensures var q := ParseSpec(text, size, p, m);
            MethodOf(Strndup(text, m.line.value.methodLen)) in {Put, Append} ==> q.status == BadRequest && q.state == Done
  {
  }

  /** A PUT or APPEND whose Content-Length is negative, malformed or absent
      (the initial -1) is a bad request. */
  lemma ParseBodyLength(text: string, size: nat, p: Parsed, f: Scan)
    requires p.reqline.reqMethod in {Put, Append} && f.fields.contlen < 0
    ensures ParseFields(text, size, p, f).status == BadRequest
  {
  }

  /** A parse that accepts the fields records where the header ends (just
      after the first blank line) and carries over min(contlen, size - end)
      body bytes already in the buffer. */
  lemma ParseCarriesBody(text: string, size: nat, p: Parsed, f: Scan)
    requires |text| <= size <= REQSIZE
    requires ParseFields(text, size, p, f).status == Ok
    ensures var q := ParseFields(text, size, p, f);
            StrContains(text, END_CRLF) &&
            q.reqeo == FirstOccurrence(text, END_CRLF).value + 4 && q.reqeo <= size &&
            q.rembytes == (if q.fields.contlen < size - q.reqeo then q.fields.contlen else size - q.reqeo) &&
            (q.remout <==> q.rembytes > 0) &&
            (q.reqline.reqMethod != Get ==> 0 <= q.rembytes <= q.fields.contlen)
  {
    var i := FirstOccurrence(text, END_CRLF).value;
    assert OccursAt(text, END_CRLF, i);
  }

  /** Parsing ends at HANDLE_REQUEST or DONE, keeps the carried-over body
      bytes inside the bytes received, and never more of them than a PUT or
      APPEND announced. */
  lemma ParseKeepsBounds(text: string, size: nat, p: Parsed, m: Matches)
    requires |text| <= size <= REQSIZE && p.reqeo <= size && p.rembytes <= size - p.reqeo
    ensures var q := ParseSpec(text, size, p, m);
            q.reqeo <= size && q.rembytes <= size - q.reqeo && (q.state == HandleRequest || q.state == Done) &&
            (q.state == HandleRequest && q.reqline.reqMethod != Get ==> q.rembytes <= q.fields.contlen)
  {
    if m.compiled && m.line.Some? {
      var l := m.line.value;
      var meth := MethodOf(Strndup(text, l.methodLen));
      if meth != NoMethod && l.objectLen <= MAX_OBJECT && !l.bare {
        var q := p.(reqline := ReqLine(meth, Strndup(Suffix(text, l.objectStart), l.objectLen),
                                       Strndup(Suffix(text, l.versionStart), l.versionLen)));
        var f := ScanFields(text, l.end, m.fields, q.fields);
        if ParseFields(text, size, q, f).status == Ok {
          ParseCarriesBody(text, size, q, f);
        }
      }
    }
  }

  /** parse_http_request on the request's fields p: the request line's
      method and object, then the field lines one regexec at a time, then
      the Content-Length check and the end of the header. */
  method ParseRequest(text: string, size: nat, p: Parsed, m: Matches) returns (q: Parsed)
    ensures q == ParseSpec(text, size, p, m)
    ensures |text| <= size <= REQSIZE && p.reqeo <= size && p.rembytes <= size - p.reqeo ==>
              q.reqeo <= size && q.rembytes <= size - q.reqeo && (q.state == HandleRequest || q.state == Done) &&
              (q.state == HandleRequest && q.reqline.reqMethod != Get ==> q.rembytes <= q.fields.contlen)
  {
    if |text| <= size <= REQSIZE && p.reqeo <= size && p.rembytes <= size - p.reqeo {
      ParseKeepsBounds(text, size, p, m);
    }
    if !m.compiled {
      return p.(status := IntErr, state := Done);
    }
    if m.line.None? {
      return p.(status := BadRequest, state := Done);
    }
    q := ParseRequestLine(text, size, p, m.line.value, m.fields);
  }

  /** parse_http_request once the request line matched: the method and
      object checks, a request without fields, and the field loop. */
  method ParseRequestLine(text: string, size: nat, p: Parsed, l: LineMatch, fields: seq<Option<FieldMatch>>)
    returns (q: Parsed)
    ensures q == ParseLine(text, size, p, l, fields)
  {
    var meth := MethodOf(Strndup(text, l.methodLen));
    if meth == NoMethod {
      return p.(status := NotImpl, state := Done);
    }
    q := p.(reqline := p.reqline.(reqMethod := meth));
    if l.objectLen > MAX_OBJECT {
      return q.(status := BadRequest, state := Done);
    }
    q := q.(reqline := q.reqline.(objectName := Strndup(Suffix(text, l.objectStart), l.objectLen)));
    q := q.(reqline := q.reqline.(version := Strndup(Suffix(text, l.versionStart), l.versionLen)));
    if l.bare {
      if meth != Get {
        return q.(status := BadRequest, state := Done);
      }
      return q.(status := Ok, state := HandleRequest);
    }
    var ok, fl := ScanFieldLines(text, l.end, fields, q.fields);
    q := CheckFields(text, size, q, ok, fl);
  }

  /** parse_http_request after the field loop: the Content-Length check,
      the end of the header and the body bytes carried over. */
  method CheckFields(text: string, size: nat, p: Parsed, ok: bool, fl: Fields) returns (q: Parsed)
    ensures q == ParseFields(text, size, p, Scan(ok, fl))
  {
    q := p.(fields := fl);
    if !ok || (fl.contlen < 0 && p.reqline.reqMethod != Get) {
      return q.(status := BadRequest, state := Done);
    }
    var end := FirstOccurrence(text, END_CRLF);
    if end.None? {
      return q.(status := BadRequest, state := Done);
    }
    var eo := end.value + |END_CRLF|;
    var rem := Remaining(size, eo);
    rem := if fl.contlen < rem then fl.contlen else rem;
    q := q.(reqeo := eo, rembytes := rem, remout := rem > 0, status := Ok, state := HandleRequest);
  }

  /** The field loop of parse_http_request: a regexec per field line, from
      the one at start on, until one fails (ok false) or a field ends the
      header (ok true). */
  method ScanFieldLines(text: string, start: nat, fields: seq<Option<FieldMatch>>, fl0: Fields)
    returns (ok: bool, fl: Fields)
    ensures Scan(ok, fl) == ScanFields(text, start, fields, fl0)
  {
    var ptr: nat, ms := start, fields;
    fl := fl0;
    while ms != [] && ms[0].Some?
      invariant ScanFields(text, ptr, ms, fl) == ScanFields(text, start, fields, fl0)
      decreases |ms|
    {
      var f := ms[0].value;
      var at := Suffix(text, ptr);
      ScanStep(text, ptr, ms, fl);
      ghost var step := FieldStep(at, f, fl);
      var value := Strndup(Suffix(at, f.valueStart), f.valueLen);
      if HasPrefix(at, "Content-Length") {
        fl := fl.(contlen := StrToInt64u(value));
      }
      if HasPrefix(at, "Request-Id") {
        fl := fl.(reqid := StrToUint32(value));
      }
      assert fl == step;
      if f.last {
        return true, fl;
      }
      ptr, ms := ptr + f.end, ms[1..];
    }
    ok := false;
  }

  /** One turn of the field loop. */
  lemma ScanStep(text: string, ptr: nat, ms: seq<Option<FieldMatch>>, fl: Fields)
    requires ms != [] && ms[0].Some?
    ensures var f := ms[0].value;
            var step := FieldStep(Suffix(text, ptr), f, fl);
            ScanFields(text, ptr, ms, fl) ==
              if f.last then Scan(true, step) else ScanFields(text, ptr + f.end, ms[1..], step)
  {
  }

  // ---------------------------------------------------------------------------
  // Body transfers

  /** The receive loop of recv_http_body: recv at most BLOCK bytes at a
      time, keep no more of them than the contlen still expected, and go on
      while bytes are expected and the last recv kept some. kept is what was
      written to the temporary file, dropped what arrived beyond contlen;
      failure is the errno of a recv that failed, and last what the final
      turn kept (-1 after a failure). */
  method ReceiveBody(sock: Socket, contlen0: int)
    returns (sock': Socket, kept: seq<char>, contlen: int, last: int, failure: Option<Errno>, ghost dropped: seq<char>)
    requires contlen0 > 0
    ensures 0 <= contlen <= contlen0 && |kept| == contlen0 - contlen
    ensures Pending(sock.inbox) == kept + dropped + Pending(sock'.inbox)
    ensures dropped != [] ==> contlen == 0
    ensures sock'.acks == sock.acks && sock'.delivered == sock.delivered
    ensures failure.Some? <==> last == -1
    ensures failure.Some? ==> contlen > 0
    ensures failure.None? ==> 0 <= last && (contlen == 0 || Closed(sock'))
  {
    sock', kept, contlen, dropped := sock, [], contlen0, [];
    while true
      invariant 0 < contlen <= contlen0 && |kept| == contlen0 - contlen
      invariant Pending(sock.inbox) == kept + Pending(sock'.inbox)
      invariant sock'.acks == sock.acks && sock'.delivered == sock.delivered
      decreases Work(sock')
    {
      var (r, next) := Recv(sock', BLOCK);
      if r.RecvFailed? {
        sock', last, failure := next, -1, Some(r.errno);
        return;
      }
      var data := r.data;
      var k := if contlen < |data| then contlen else |data|;
      assert data == data[..k] + data[k..];
      AppendAssoc(kept, data, Pending(next.inbox));
      AppendAssoc(kept, data[..k], data[k..]);
      kept, contlen, sock' := kept + data[..k], contlen - k, next;
      if !(contlen > 0 && k > 0) {
        last, failure, dropped := k, None, data[k..];
        return;
      }
    }
  }

  /** read_bytes(fd, buffer, BLOCK) at file position pos: the next BLOCK
      bytes of the file, or all that is left of it. */
  function ReadChunk(content: seq<char>, pos: nat): (r: seq<char>)
    ensures |r| <= BLOCK
    ensures pos < |content| ==> 0 < |r| <= |content| - pos
    ensures pos >= |content| ==> r == []
  {
    if pos >= |content| then []
    else if pos + BLOCK <= |content| then content[pos..pos + BLOCK]
    else content[pos..]
  }

  /** What ReadChunk reads are the file's bytes at the position, in order. */
  lemma ChunkPrefix(content: seq<char>, pos: nat, k: nat)
    requires pos < |content| && k <= |ReadChunk(content, pos)|
    ensures ReadChunk(content, pos)[..k] == content[pos..pos + k]
  {
  }

  /** lseek(fd, offset, SEEK_SET): a negative offset fails and leaves the
      position where it was. */
  function Seek(offset: int, pos: nat): nat {
    if offset >= 0 then offset else pos
  }

  /** How the send loop of send_http_body ends: everything was read and
      sent, a send would block, or a send failed with errno. */
  datatype BodyEnd = Finished | Blocked | Failed(errno: Errno)

  /** Where a body send stops: how it ended, the file position, contlen and
      the socket afterwards. */
  datatype BodySend = BodySend(end: BodyEnd, pos: nat, contlen: int, sock: Socket)

  /** send_http_body as written: each turn reads a chunk at the file
      position, sends it, and adds the bytes READ to contlen, however many
      of them the send took. */
  function SendChunksAsWritten(content: seq<char>, pos: nat, contlen: int, sock: Socket): BodySend
    decreases |content| - pos
  {
    var chunk := ReadChunk(content, pos);
    var sent := Send(sock, chunk);
    if sent.0.SendFailed? then
      if sent.0.errno == EWOULDBLOCK then BodySend(Blocked, Seek(contlen, pos + |chunk|), contlen, sent.1)
      else BodySend(Failed(sent.0.errno), pos + |chunk|, contlen, sent.1)
    else if |chunk| > 0 && sent.0.n > 0 then SendChunksAsWritten(content, pos + |chunk|, contlen + |chunk|, sent.1)
    else BodySend(Finished, pos + |chunk|, contlen + |chunk|, sent.1)
  }

  /** The bookkeeping of send_http_body as written: contlen counts the bytes
      read, so it never goes down, stays within the file, and never falls
      short of what reached the peer; the inbox is untouched; a finished
      send leaves the file position after the bytes counted, and one that
      would block sets it back to contlen. */
  lemma {:induction false} SendChunksAsWrittenCounts(content: seq<char>, pos: nat, contlen: int, sock: Socket)
    ensures var r := SendChunksAsWritten(content, pos, contlen, sock);
            contlen <= r.contlen && (pos <= |content| ==> pos + (r.contlen - contlen) <= |content|) &&
            r.sock.inbox == sock.inbox &&
            |r.sock.delivered| - |sock.delivered| <= r.contlen - contlen &&
            sock.delivered <= r.sock.delivered &&
            (r.end == Finished ==> r.pos == pos + (r.contlen - contlen)) &&
            (r.end == Blocked && r.contlen >= 0 ==> r.pos == r.contlen)
    decreases |content| - pos
  {
    var chunk := ReadChunk(content, pos);
    var sent := Send(sock, chunk);
    if sent.0.Sent? && |chunk| > 0 && sent.0.n > 0 {
      SendChunksAsWrittenCounts(content, pos + |chunk|, contlen + |chunk|, sent.1);
      var r := SendChunksAsWritten(content, pos + |chunk|, contlen + |chunk|, sent.1);
      assert sock.delivered <= sent.1.delivered;
    }
  }

  /** A send that takes one byte of a two-byte body: as written, the loop
      counts both bytes as sent and reads on past the second, so the peer
      gets only the first while contlen reports 2; counting what each send
      took delivers both. */
  lemma SendChunksAsWrittenLosesBytes(a: char, b: char)
    ensures var r := SendChunksAsWritten([a, b], 0, 0, Socket([], Then(Take(1), Whole), []));
            r.end == Finished && r.contlen == 2 && r.sock.delivered == [a]
    ensures var r := SendChunks([a, b], 0, 0, Socket([], Then(Take(1), Whole), []));
            r.end == Finished && r.contlen == 2 && r.sock.delivered == [a, b]
  {
    var s0 := Socket([], Then(Take(1), Whole), []);
    assert ReadChunk([a, b], 0) == [a, b];
    assert ReadChunk([a, b], 2) == [];
    var s1 := Socket([], Whole, [a]);
    assert [a, b][..1] == [a] && [] + [a] == [a];
    assert Send(s0, [a, b]) == (Sent(1), s1);
    assert SendChunksAsWritten([a, b], 2, 2, s1) == BodySend(Finished, 2, 2, s1);
    SendChunksDelivers([a, b], 0, 0, s0);
    assert [a, b][0..] == [a, b];
  }

  /** The send loop of send_http_body counting the bytes each send took:
      contlen and the file position advance by what reached the peer. */
  function SendChunks(content: seq<char>, pos: nat, contlen: int, sock: Socket): BodySend
    decreases |content| - pos
  {
    var chunk := ReadChunk(content, pos);
    var sent := Send(sock, chunk);
    if sent.0.SendFailed? then
      if sent.0.errno == EWOULDBLOCK then BodySend(Blocked, Seek(contlen, pos + |chunk|), contlen, sent.1)
      else BodySend(Failed(sent.0.errno), pos + |chunk|, contlen, sent.1)
    else
      var k := sent.0.n;
      if |chunk| > 0 && k > 0 then SendChunks(content, pos + k, contlen + k, sent.1)
      else BodySend(Finished, pos + k, contlen + k, sent.1)
  }

  /** contlen never goes down and stays within the file; the socket's inbox
      is untouched; a finished send leaves the file position after the
      bytes counted, and one that would block sets it back to contlen. */
  lemma {:induction false} SendChunksCounts(content: seq<char>, pos: nat, contlen: int, sock: Socket)
    ensures var r := SendChunks(content, pos, contlen, sock);
            contlen <= r.contlen && (pos <= |content| ==> pos + (r.contlen - contlen) <= |content|) &&
            r.sock.inbox == sock.inbox &&
            (r.end == Finished ==> r.pos == pos + (r.contlen - contlen)) &&
            (r.end == Blocked && r.contlen >= 0 ==> r.pos == r.contlen)
    decreases |content| - pos
  {
    var chunk := ReadChunk(content, pos);
    var sent := Send(sock, chunk);
    if sent.0.Sent? && |chunk| > 0 && sent.0.n > 0 {
      SendChunksCounts(content, pos + sent.0.n, contlen + sent.0.n, sent.1);
    }
  }

  /** contlen grows by exactly the bytes the peer got, and those are the
      file's bytes from the starting position on, in order. */
  lemma {:induction false} SendChunksDelivered(content: seq<char>, pos: nat, contlen: int, sock: Socket)
    requires pos <= |content|
    ensures var r := SendChunks(content, pos, contlen, sock);
            contlen <= r.contlen && pos + (r.contlen - contlen) <= |content| &&
            r.sock.delivered == sock.delivered + content[pos..pos + (r.contlen - contlen)]
    decreases |content| - pos
  {
    SendChunksCounts(content, pos, contlen, sock);
    var chunk := ReadChunk(content, pos);
    var sent := Send(sock, chunk);
    if sent.0.Sent? && |chunk| > 0 && sent.0.n > 0 {
      var k := sent.0.n;
      SendChunksDelivered(content, pos + k, contlen + k, sent.1);
      var r := SendChunks(content, pos + k, contlen + k, sent.1);
      var total := r.contlen - contlen;
      ChunkPrefix(content, pos, k);
      assert sent.1.delivered == sock.delivered + content[pos..pos + k];
      SliceSplit(content, pos, pos + k, pos + total);
      AppendAssoc(sock.delivered, content[pos..pos + k], content[pos + k..pos + total]);
      assert SendChunks(content, pos, contlen, sock) == r;
    } else {
      assert content[pos..pos] == [];
      assert SendChunks(content, pos, contlen, sock).sock == sent.1;
    }
  }

  /** When no send fails, the whole rest of the file reaches the peer and
      contlen grows by its length. */
  lemma {:induction false} SendChunksDelivers(content: seq<char>, pos: nat, contlen: int, sock: Socket)
    requires pos <= |content| && NoRefusals(sock.acks)
    ensures var r := SendChunks(content, pos, contlen, sock);
            r.end == Finished && r.pos == |content| && r.contlen == contlen + (|content| - pos) &&
            r.sock.delivered == sock.delivered + content[pos..]
    decreases |content| - pos
  {
    var chunk := ReadChunk(content, pos);
    var sent := Send(sock, chunk);
    SendChunksDelivered(content, pos, contlen, sock);
    SendChunksCounts(content, pos, contlen, sock);
    if pos < |content| {
      assert sent.0.Sent? && sent.0.n > 0;
      SendChunksDelivers(content, pos + sent.0.n, contlen + sent.0.n, sent.1);
      assert SendChunks(content, pos, contlen, sock) == SendChunks(content, pos + sent.0.n, contlen + sent.0.n, sent.1);
    } else {
      assert SendChunks(content, pos, contlen, sock) == BodySend(Finished, pos, contlen, sent.1);
    }
  }

  /** A send that would block, started with the file position equal to
      contlen, leaves the two equal again: the peer has had the file's bytes
      from the starting position up to the new one, so the next call can
      go on from there. */
  lemma SendChunksSuspends(content: seq<char>, pos: nat, sock: Socket)
    requires pos <= |content|
    ensures var r := SendChunks(content, pos, pos, sock);
            r.end == Blocked ==>
              r.pos == r.contlen && pos <= r.pos <= |content| &&
              r.sock.delivered == sock.delivered + content[pos..r.pos]
  {
    SendChunksCounts(content, pos, pos, sock);
    SendChunksDelivered(content, pos, pos, sock);
  }

  /** s[i..k] is s[i..j] followed by s[j..k]. */
  lemma SliceSplit(s: seq<char>, i: nat, j: nat, k: nat)
    requires i <= j <= k <= |s|
    ensures s[i..k] == s[i..j] + s[j..k]
  {
  }

  lemma AppendAssoc(a: seq<char>, b: seq<char>, c: seq<char>)
    ensures (a + b) + c == a + (b + c)
  {
  }

  /** The send loop of send_http_body, counting the bytes each send took. */
  method SendFileChunks(content: seq<char>, pos0: nat, contlen0: int, sock: Socket) returns (r: BodySend)
    ensures r == SendChunks(content, pos0, contlen0, sock)
  {
    var pos, contlen, s := pos0, contlen0, sock;
    while true
      invariant SendChunks(content, pos, contlen, s) == SendChunks(content, pos0, contlen0, sock)
      decreases |content| - pos
    {
      var chunk := ReadChunk(content, pos);
      var sent := Send(s, chunk);
      if sent.0.SendFailed? {
        if sent.0.errno == EWOULDBLOCK {
          return BodySend(Blocked, Seek(contlen, pos + |chunk|), contlen, sent.1);
        }
        return BodySend(Failed(sent.0.errno), pos + |chunk|, contlen, sent.1);
      }
      var k := sent.0.n;
      pos, contlen, s := pos + k, contlen + k, sent.1;
      if !(|chunk| > 0 && k > 0) {
        return BodySend(Finished, pos, contlen, s);
      }
    }
  }

  /** The response send_http_response writes for a status: the GET header
      announcing contlen bytes for a successful GET, the fixed message
      otherwise. */
  function ResponseFor(status: Status, reqMethod: Method, contlen: int): string {
    if status == Ok && reqMethod == Get then GetOkMsg(contlen) else ResolveStatusMsg(status)
  }

  // ---------------------------------------------------------------------------
  // The request object

  /** request_t. The header buffer is an array; responses records, for each
      call of send_http_response, the status it was asked to answer. */
  class Request {
    const buf: array<char>
    var size: nat
    var reqeo: nat
    var rembytes: int
    var remout: bool
    var reqline: ReqLine
    var fields: Fields
    var obj: ObjectFile
    var tmpFd: int
    var status: Status
    var state: State
    ghost var responses: seq<Status>

    /** The buffer holds size received bytes and zeros after them; the body
        bytes carried over lie inside what was received and, for a PUT or
        APPEND, within the announced length; a body receive always has
        bytes left to take, and a body send counts from 0 up. */
    ghost predicate Valid()
      reads this, buf
    {
      buf.Length == REQSIZE && size <= REQSIZE &&
      (forall i :: size <= i < REQSIZE ==> buf[i] == '\0') &&
      reqeo <= size && rembytes <= size - reqeo &&
      (reqline.reqMethod != Get && (state == HandleRequest || state == RecvRemBody) ==> rembytes <= fields.contlen) &&
      (state == RecvBody ==> fields.contlen > 0) &&
      (state == SendBody ==> fields.contlen >= 0)
    }

    /** The header text: the C string in the buffer. */
    function Text(): string
      reads buf
    {
      CStr(buf[..])
    }

    /** The fields parse_http_request reads and writes. */
    function Header(): Parsed
      reads this
    {
      Parsed(status, state, reqline, fields, reqeo, rembytes, remout)
    }

    /** request_create: RECV_HEADER with status OK, an empty zeroed header,
        no Content-Length yet (-1), request id 0, no files open (-1) and the
        object status OK. */
    constructor ()
      ensures Valid() && fresh(buf)
      ensures state == RecvHeader && status == Ok
      ensures fields == Fields(0, -1)
      ensures obj == ObjectFile(-1, 0, Ok) && tmpFd == -1
      ensures size == 0 && buf[..] == seq(REQSIZE, _ => '\0') && Text() == []
      ensures reqline == ReqLine(NoMethod, [], [])
      ensures reqeo == 0 && rembytes == 0 && !remout && responses == []
    {
      buf := new char[REQSIZE](_ => '\0');
      size, reqeo, rembytes, remout := 0, 0, 0, false;
      reqline, fields := ReqLine(NoMethod, [], []), Fields(0, -1);
      obj, tmpFd := ObjectFile(-1, 0, Ok), -1;
      status, state := Ok, RecvHeader;
      responses := [];
      new;
      assert buf[..] == seq(REQSIZE, _ => '\0');
      assert CLength(buf[..]) == 0;
    }

    /** recv_http_request: receive into the buffer, each time asking for no
        more than the room left, until the header's blank line is in, the
        peer stops sending or the buffer is full. Every byte received is
        stored after the earlier ones, in the order it came. Would-block
        suspends at RECV_HEADER, any other error ends with INT_ERR;
        otherwise the header goes to PARSE_HEADER with OK. */
    method RecvHttpRequest(sock: Socket) returns (sock': Socket)
      requires Valid()
      modifies this, buf
      ensures Valid()
      ensures old(size) <= size && buf[..old(size)] == old(buf[..])[..old(size)]
      ensures Pending(sock.inbox) == buf[old(size)..size] + Pending(sock'.inbox)
      ensures sock'.acks == sock.acks && sock'.delivered == sock.delivered
      ensures Header() == old(Header()).(status := status, state := state)
      ensures obj == old(obj) && tmpFd == old(tmpFd) && responses == old(responses)
      ensures status == Suspend || status == IntErr || status == Ok
      ensures status == Suspend ==> state == old(state)
      ensures status == IntErr ==> state == Done
      ensures status == Ok ==> state == ParseHeader &&
                               (StrContains(Text(), END_CRLF) || size == REQSIZE || Closed(sock'))
    {
      var n, failure;
      sock', n, failure := ReceiveHeader(sock, size);
      size := n;
      match failure
      case Some(e) =>
        if e == EWOULDBLOCK {
          status := Suspend;
        } else {
          status, state := IntErr, Done;
        }
      case None =>
        status, state := Ok, ParseHeader;
    }

    /** The receive loop of recv_http_request, storing from position from
        on; it ends at the first failing recv (failure), or with none once the
        blank line is in, the peer has shut down or the buffer is full. */
    method ReceiveHeader(sock: Socket, from: nat) returns (sock': Socket, n: nat, failure: Option<Errno>)
      requires buf.Length == REQSIZE && from <= REQSIZE
      requires forall i :: from <= i < REQSIZE ==> buf[i] == '\0'
      modifies buf
      ensures from <= n <= REQSIZE && buf[..from] == old(buf[..])[..from]
      ensures forall i :: n <= i < REQSIZE ==> buf[i] == '\0'
      ensures Pending(sock.inbox) == buf[from..n] + Pending(sock'.inbox)
      ensures sock'.acks == sock.acks && sock'.delivered == sock.delivered
      ensures failure.None? ==> HeaderEnds(buf[..]) || n == REQSIZE || Closed(sock')
    {
      sock' := sock;
      n := from;
      failure := None;
      ghost var got: seq<char> := [];
      while true
        invariant from <= n <= REQSIZE
        invariant buf[..][..from] == old(buf[..])[..from]
        invariant forall i :: n <= i < REQSIZE ==> buf[i] == '\0'
        invariant buf[..][from..n] == got && Pending(sock.inbox) == got + Pending(sock'.inbox)
        invariant sock'.acks == sock.acks && sock'.delivered == sock.delivered
        invariant failure.None?
        decreases Work(sock')
      {
        var (r, next) := Recv(sock', REQSIZE - n);
        if r.RecvFailed? {
          sock', failure := next, Some(r.errno);
          break;
        }
        var data := r.data;
        Append(from, n, data, got);
        AppendAssoc(got, data, Pending(next.inbox));
        sock', n, got := next, n + |data|, got + data;
        if |data| == 0 || HeaderEnds(buf[..]) {
          break;
        }
      }
      assert buf[from..n] == buf[..][from..n];
    }

    /** The header text ends within the bytes received. */
    lemma TextWithin()
      requires Valid()
      ensures |Text()| <= size
    {
      assert size < REQSIZE ==> buf[..][size] == '\0';
    }

    /** The buffer's part of Valid, and bounds on the header fields that
        parse_http_request leaves, make the request valid again. */
    lemma ParsedValid(q: Parsed)
      requires buf.Length == REQSIZE && size <= REQSIZE && forall i :: size <= i < REQSIZE ==> buf[i] == '\0'
      requires Header() == q && q.reqeo <= size && q.rembytes <= size - q.reqeo
      requires q.state == HandleRequest || q.state == Done
      requires q.state == HandleRequest && q.reqline.reqMethod != Get ==> q.rembytes <= q.fields.contlen
      ensures Valid()
    {
    }

    /** parse_http_request, writing what ParseRequest finds into the
        request. */
    method ParseHttpRequest(m: Matches)
      requires Valid()
      modifies this
      ensures Valid()
      ensures Header() == ParseSpec(old(Text()), size, old(Header()), m)
      ensures size == old(size) && obj == old(obj) && tmpFd == old(tmpFd) && responses == old(responses)
    {
      TextWithin();
      var text, p := Text(), Header();
      var q := ParseRequest(text, size, p, m);
      status, state, reqline, fields := q.status, q.state, q.reqline, q.fields;
      reqeo, rembytes, remout := q.reqeo, q.rembytes, q.remout;
      ParsedValid(q);
    }

    /** recv_rem_http_body: with nothing announced the body is complete;
        otherwise the body bytes carried over after the header go to the
        temporary file (written) and are taken off contlen, and the body is
        complete once contlen is used up. */
    method RecvRemHttpBody() returns (n: int, written: seq<char>)
      requires Valid()
      modifies this
      ensures Valid() && status == Ok
      ensures old(fields.contlen) <= 0 ==> n == 0 && written == [] && fields == old(fields) && state == WriteBody
      ensures old(fields.contlen) > 0 ==>
                var k := if rembytes > 0 then rembytes else 0;
                n == k && written == buf[reqeo..reqeo + k] &&
                fields == old(fields).(contlen := old(fields.contlen) - k) &&
                (state == WriteBody <==> fields.contlen <= 0) && (state == WriteBody || state == RecvBody) &&
                (old(state) == RecvRemBody && reqline.reqMethod != Get ==> fields.contlen >= 0)
      ensures size == old(size) && reqeo == old(reqeo) && rembytes == old(rembytes) && remout == old(remout)
      ensures reqline == old(reqline) && obj == old(obj) && tmpFd == old(tmpFd) && responses == old(responses)
    {
      n, written := 0, [];
      if fields.contlen <= 0 {
        status, state := Ok, WriteBody;
        return;
      }
      if rembytes > 0 {
        n, written := rembytes, buf[reqeo..reqeo + rembytes];
        fields := fields.(contlen := fields.contlen - n);
        if fields.contlen <= 0 {
          status, state := Ok, WriteBody;
          return;
        }
      }
      status, state := Ok, RecvBody;
    }

    /** recv_http_body: receive the rest of the body into the temporary file
        (written), never more than contlen announces, which goes down by
        what was written. Would-block suspends at RECV_BODY, any other error
        ends with INT_ERR; otherwise the body is written (WRITE_BODY): all of
        it, or what came before the peer shut down. */
    method RecvHttpBody(sock: Socket) returns (n: int, sock': Socket, written: seq<char>)
      requires Valid() && state == RecvBody
      modifies this
      ensures Valid()
      ensures 0 <= fields.contlen <= old(fields.contlen) && |written| == old(fields.contlen) - fields.contlen
      ensures written <= Pending(sock.inbox)
      ensures fields.contlen > 0 ==> Pending(sock.inbox) == written + Pending(sock'.inbox)
      ensures sock'.acks == sock.acks && sock'.delivered == sock.delivered
      ensures status == Suspend || status == IntErr || status == Ok
      ensures n < 0 <==> status != Ok
      ensures status == Suspend ==> state == RecvBody
      ensures status == IntErr ==> state == Done
      ensures status == Ok ==> state == WriteBody && (fields.contlen == 0 || Closed(sock'))
      ensures fields.reqid == old(fields.reqid) && size == old(size) && reqeo == old(reqeo)
      ensures rembytes == old(rembytes) && remout == old(remout) && reqline == old(reqline)
      ensures obj == old(obj) && tmpFd == old(tmpFd) && responses == old(responses)
    {
      var c, failure;
      ghost var dropped;
      sock', written, c, n, failure, dropped := ReceiveBody(sock, fields.contlen);
      AppendAssoc(written, dropped, Pending(sock'.inbox));
      fields := fields.(contlen := c);
      match failure
      case Some(e) =>
        if e == EWOULDBLOCK {
          status := Suspend;
        } else {
          status, state := IntErr, Done;
        }
      case None =>
        status, state := Ok, WriteBody;
    }

    /** send_http_body on the object file's bytes (content) from file
        position pos, contlen counting the bytes sent (as SendChunks does).
        Would-block suspends at SEND_BODY with the position set back to
        contlen; EPIPE and ECONNRESET end with CONN_CLOSED, any other error
        with INT_ERR; otherwise the body is sent and n is contlen. */
    method SendHttpBody(sock: Socket, content: seq<char>, pos: nat) returns (n: int, sock': Socket, pos': nat)
      requires Valid() && state == SendBody
      modifies this
      ensures Valid()
      ensures var r := SendChunks(content, pos, old(fields.contlen), sock);
              sock' == r.sock && pos' == r.pos && fields == old(fields).(contlen := r.contlen) &&
              (r.end == Finished ==> status == Ok && state == Done && n == r.contlen) &&
              (r.end == Blocked ==> status == Suspend && state == SendBody && n < 0) &&
              (r.end.Failed? ==>
                 state == Done && n < 0 &&
                 status == if r.end.errno == EPIPE || r.end.errno == ECONNRESET then ConnClosed else IntErr)
      ensures size == old(size) && reqeo == old(reqeo) && rembytes == old(rembytes) && remout == old(remout)
      ensures reqline == old(reqline) && obj == old(obj) && tmpFd == old(tmpFd) && responses == old(responses)
    {
      var r := SendFileChunks(content, pos, fields.contlen, sock);
      SendChunksCounts(content, pos, fields.contlen, sock);
      sock', pos' := r.sock, r.pos;
      fields := fields.(contlen := r.contlen);
      match r.end
      case Finished =>
        n := r.contlen;
        status, state := Ok, Done;
      case Blocked =>
        n := -1;
        status := Suspend;
      case Failed(e) =>
        n := -1;
        status, state := if e == EPIPE || e == ECONNRESET then ConnClosed else IntErr, Done;
    }

    /** send_http_response: send the response for status s (the GET header
        for a successful GET). A failed send ends the request with
        CONN_CLOSED (EPIPE, ECONNRESET) or INT_ERR, and n is -1; otherwise n
        is the bytes sent and the request is left as it was. */
    method SendHttpResponse(sock: Socket, s: Status) returns (n: int, sock': Socket)
      requires Valid()
      modifies this
      ensures Valid()
      ensures responses == old(responses) + [s]
      ensures var (r, after) := Send(sock, ResponseFor(s, reqline.reqMethod, fields.contlen));
              sock' == after &&
              (r.Sent? ==> n == r.n && status == old(status) && state == old(state)) &&
              (r.SendFailed? ==>
                 n == -1 && state == Done &&
                 status == if r.errno == EPIPE || r.errno == ECONNRESET then ConnClosed else IntErr)
      ensures size == old(size) && reqeo == old(reqeo) && rembytes == old(rembytes) && remout == old(remout)
      ensures reqline == old(reqline) && fields == old(fields) && obj == old(obj) && tmpFd == old(tmpFd)
    {
      responses := responses + [s];
      var (r, after) := Send(sock, ResponseFor(s, reqline.reqMethod, fields.contlen));
      sock' := after;
      match r
      case Sent(k) =>
        n := k;
      case SendFailed(e) =>
        n := -1;
        status, state := if e == EPIPE || e == ECONNRESET then ConnClosed else IntErr, Done;
    }

    /** Stores data after the n bytes received so far, got being those
        stored from position from on. */
    method Append(from: nat, n: nat, data: seq<char>, ghost got: seq<char>)
      requires buf.Length == REQSIZE && from <= n && n + |data| <= REQSIZE
      requires forall i :: n <= i < REQSIZE ==> buf[i] == '\0'
      requires buf[..][from..n] == got
      modifies buf
      ensures buf[..][..from] == old(buf[..])[..from]
      ensures forall i :: n + |data| <= i < REQSIZE ==> buf[i] == '\0'
      ensures buf[..][from..n + |data|] == got + data
    {
      ghost var before := buf[..];
      Store(n, data);
      StoreSlices(before, n, data, from);
    }

    /** Copies data into the buffer from position at on. */
    method Store(at: nat, data: seq<char>)
      requires at + |data| <= buf.Length
      modifies buf
      ensures buf[..] == old(buf[..])[..at] + data + old(buf[..])[at + |data|..]
    {
      forall i | 0 <= i < |data| {
        buf[at + i] := data[i];
      }
      assert buf[..] == old(buf[..])[..at] + data + old(buf[..])[at + |data|..] by {
        assert forall i :: 0 <= i < buf.Length ==> buf[i] == (old(buf[..])[..at] + data + old(buf[..])[at + |data|..])[i];
      }
    }
  }

  /** The blank line ending the header is in the C string held in b. */
  predicate HeaderEnds(b: seq<char>) {
    StrContains(CStr(b), END_CRLF)
  }

  /** What a store of data at position at keeps and adds, seen from lo. */
  lemma StoreSlices(b: seq<char>, at: nat, data: seq<char>, lo: nat)
    requires lo <= at && at + |data| <= |b|
    ensures var b' := b[..at] + data + b[at + |data|..];
            |b'| == |b| && b'[..lo] == b[..lo] && b'[lo..at + |data|] == b[lo..at] + data &&
            forall i :: at + |data| <= i < |b| ==> b'[i] == b[i]
  {
    var b' := b[..at] + data + b[at + |data|..];
    assert b'[lo..at + |data|] == b[lo..at] + data by {
      assert forall i :: lo <= i < at + |data| ==> b'[i] == (b[lo..at] + data)[i - lo];
    }
  }
}
