/** httpserver.c: the per-connection handlers. Each call runs the steps of
    a request from the state it is in, each step guarded by the state the
    one before left, and returns early when a step suspends or answers; the
    next call for the connection resumes at the state left behind.

    What the file system answers during one call is an input (Disk); the
    bytes of the temporary file and the object file's read position are
    carried from call to call (Files); what a PUT or APPEND leaves in the
    object file is an output. */
module HttpServer {
  import opened Wrappers
  import opened Status
  import opened Io
  import opened Request

  // ---------------------------------------------------------------------------
  // The file-system calls of ioutil.c, as outcomes

  /** open_file's status for the errno of a failed open: not found (404),
      forbidden (403), anything else a bad request (400). */
  function OpenStatus(e: Errno): (s: Status)
    ensures s == FileNotFound <==> e == ENOENT
    ensures s == Forbidden <==> e == EACCES
    ensures s == FileNotFound || s == Forbidden || s == BadRequest
  {
    if e == ENOENT then FileNotFound else if e == EACCES then Forbidden else BadRequest
  }

  /** The status file_is_dir and sizeof_file leave for a failed fstat:
      forbidden (403) or an internal error (500). */
  function StatStatus(e: Errno): (s: Status)
    ensures s == Forbidden <==> e == EACCES
    ensures s == Forbidden || s == IntErr
  {
    if e == EACCES then Forbidden else IntErr
  }

  /** What the file system answers during one handler call: the open of the
      object at HANDLE_REQUEST, the fstat under file_is_dir and the one
      under sizeof_file, mkstemp, whether unlinking the object at
      WRITE_BODY succeeds (PUT), the reopen at WRITE_BODY (APPEND), and the
      object file's bytes. */
  datatype Disk = Disk(open: OpenOutcome, dirStat: StatOutcome, sizeStat: StatOutcome, mkstemp: OpenOutcome,
                       unlinked: bool, reopen: OpenOutcome, content: seq<char>)

  /** What a request's open files hold between calls: the object file's read
      position (GET) and the temporary file's bytes (PUT, APPEND). */
  datatype Files = Files(pos: nat, tmp: seq<char>)

  /** open_file: the descriptor, or -1 with the open status. */
  function OpenObject(o: OpenOutcome, status: Status): (int, Status) {
    match o
    case Opened(fd) => (fd as int, status)
    case OpenFailed(e) => (-1, OpenStatus(e))
  }

  /** file_is_dir: 1 and FORBIDDEN for a directory, -1 and the fstat status
      when fstat fails, 0 and the status unchanged otherwise. */
  function FileIsDir(st: StatOutcome, status: Status): (int, Status) {
    match st
    case StatFailed(e) => (-1, StatStatus(e))
    case Stat(isDir, _) => if isDir then (1, Forbidden) else (0, status)
  }

  /** sizeof_file: the size, or -1 with the fstat status. */
  function SizeofFile(st: StatOutcome, status: Status): (int, Status) {
    match st
    case StatFailed(e) => (-1, StatStatus(e))
    case Stat(_, size) => (size as int, status)
  }

  /** create_tmpfile: the descriptor, or -1 with INT_ERR. */
  function CreateTmpfile(o: OpenOutcome, status: Status): (int, Status) {
    match o
    case Opened(fd) => (fd as int, status)
    case OpenFailed(_) => (-1, IntErr)
  }

  /** append_file(tmp, target, n): the object's bytes followed by the first
      n bytes of the temporary file, or all of them when it holds fewer (a
      negative n is a huge size_t). */
  function AppendFile(target: seq<char>, tmp: seq<char>, n: int): seq<char> {
    if 0 <= n <= |tmp| then target + tmp[..n] else target + tmp
  }

  /** append_file keeps the object's bytes and adds min(n, |tmp|) bytes
      from the start of the temporary file. */
  lemma AppendFileAppends(target: seq<char>, tmp: seq<char>, n: nat)
    ensures var r := AppendFile(target, tmp, n);
            var k := if n <= |tmp| then n else |tmp|;
            |r| == |target| + k && r[..|target|] == target && r[|target|..] == tmp[..k]
  {
    var r := AppendFile(target, tmp, n);
    var k := if n <= |tmp| then n else |tmp|;
    assert tmp[..k] == if n <= |tmp| then tmp[..n] else tmp;
    assert r == target + tmp[..k];
  }

  /** With the whole temporary file's length, append_file adds all of it. */
  lemma AppendFileWhole(target: seq<char>, tmp: seq<char>)
    ensures AppendFile(target, tmp, |tmp|) == target + tmp
  {
    assert tmp[..|tmp|] == tmp;
  }

  /** A temporary file that starts empty holds just what was written to it. */
  lemma NothingStaged(tmp: seq<char>, carried: seq<char>, received: seq<char>)
    requires tmp == []
    ensures tmp + carried + received == carried + received
  {
  }

  // ---------------------------------------------------------------------------
  // What refuses a request at HANDLE_REQUEST

  /** The status a GET or APPEND is refused with when the object cannot be
      opened or is a directory (or fstat on it fails); None when it can be
      served. */
  function Refusal(disk: Disk): (r: Option<Status>)
    ensures r.None? <==> disk.open.Opened? && disk.dirStat.Stat? && !disk.dirStat.isDir
    ensures r.Some? ==> r.value in {FileNotFound, Forbidden, BadRequest, IntErr}
  {
    match disk.open
    case OpenFailed(e) => Some(OpenStatus(e))
    case Opened(_) =>
      match disk.dirStat
      case StatFailed(e) => Some(StatStatus(e))
      case Stat(isDir, _) => if isDir then Some(Forbidden) else None
  }

  /** A GET is refused as an APPEND is, and also when its size cannot be
      found. */
  function GetRefusal(disk: Disk): (r: Option<Status>)
    ensures r.None? <==> disk.open.Opened? && disk.dirStat.Stat? && !disk.dirStat.isDir && disk.sizeStat.Stat?
    ensures r.Some? ==> r.value in {FileNotFound, Forbidden, BadRequest, IntErr}
  {
    if Refusal(disk).Some? then Refusal(disk)
    else if disk.sizeStat.StatFailed? then Some(StatStatus(disk.sizeStat.errno))
    else None
  }

  /** A PUT is refused like an APPEND, except that a missing object is no
      refusal: it is to be created, and the directory check is skipped. */
  function PutRefusal(disk: Disk, objStatus: Status): (r: Option<Status>)
    ensures r.None? <==> disk.open == OpenFailed(ENOENT) ||
                         (disk.open.Opened? && (objStatus == Created || Refusal(disk).None?))
    ensures disk.open.OpenFailed? && disk.open.errno != ENOENT ==> r == Some(OpenStatus(disk.open.errno))
    ensures disk.open.Opened? && objStatus != Created ==> r == Refusal(disk)
    ensures r.Some? ==> r.value in {Forbidden, BadRequest, IntErr}
  {
    if disk.open.OpenFailed? then
      if disk.open.errno == ENOENT then None else Some(OpenStatus(disk.open.errno))
    else if objStatus == Created then None
    else Refusal(disk)
  }

  /** send_http_response with the request's own status, as every early
      return of the handlers does. */
  method Respond(req: Request, sock: Socket) returns (sock': Socket)
    requires req.Valid()
    modifies req
    ensures req.Valid() && req.responses == old(req.responses) + [old(req.status)]
    ensures (req.state == old(req.state) && req.status == old(req.status)) ||
            (req.state == Done && (req.status == ConnClosed || req.status == IntErr))
    ensures sock' == Send(sock, ResponseFor(old(req.status), req.reqline.reqMethod, req.fields.contlen)).1
    ensures req.Header() == old(req.Header()).(status := req.status, state := req.state)
    ensures req.size == old(req.size) && req.obj == old(req.obj) && req.tmpFd == old(req.tmpFd)
  {
    var _, s := req.SendHttpResponse(sock, req.status);
    sock' := s;
  }

  // ---------------------------------------------------------------------------
  // handle_get

  /** handle_get at HANDLE_REQUEST: open the object, check it is no
      directory and find its size; go on to SEND_ACK (the size as contlen,
      the file position at 0) exactly when all three succeed; otherwise
      answer once with the failing step's status and stop. */
  method GetHandleRequest(req: Request, sock: Socket, disk: Disk, files: Files) returns (sock': Socket, files': Files)
    requires req.Valid() && req.state == HandleRequest && req.reqline.reqMethod == Get
    modifies req
    ensures req.Valid()
    ensures GetRefusal(disk).None? ==>
              req.state == SendAck && req.status == old(req.status) && req.obj.fd == disk.open.fd &&
              req.fields == old(req.fields).(contlen := disk.sizeStat.size) &&
              files' == files.(pos := 0) && sock' == sock && req.responses == old(req.responses)
    ensures GetRefusal(disk).Some? ==>
              req.responses == old(req.responses) + [GetRefusal(disk).value] && files' == files &&
              ((req.state == HandleRequest && req.status == GetRefusal(disk).value) ||
               (req.state == Done && (req.status == ConnClosed || req.status == IntErr)))
    ensures req.reqline == old(req.reqline)
  {
    sock', files' := sock, files;
    var open := OpenObject(disk.open, req.status);
    req.obj, req.status := req.obj.(fd := open.0), open.1;
    if open.0 < 0 {
      sock' := Respond(req, sock');
      return;
    }
    var dir := FileIsDir(disk.dirStat, req.status);
    req.status := dir.1;
    if dir.0 != 0 {
      sock' := Respond(req, sock');
      return;
    }
    var size := SizeofFile(disk.sizeStat, req.status);
    req.fields, req.status := req.fields.(contlen := size.0), size.1;
    if size.0 < 0 {
      sock' := Respond(req, sock');
      return;
    }
    req.state := SendAck;
    files' := files'.(pos := 0);
  }

  /** handle_get at SEND_ACK: answer with the request's status (the GET
      header announcing contlen bytes when it is OK); if that send fails
      stop, otherwise reset contlen to 0 and go on to SEND_BODY. */
  method GetSendAck(req: Request, sock: Socket) returns (sock': Socket)
    requires req.Valid() && req.state == SendAck && req.reqline.reqMethod == Get
    modifies req
    ensures req.Valid()
    ensures req.responses == old(req.responses) + [old(req.status)]
    ensures var (r, after) := Send(sock, ResponseFor(old(req.status), req.reqline.reqMethod, old(req.fields.contlen)));
            sock' == after &&
            (r.Sent? ==> req.state == SendBody && req.status == old(req.status) && req.fields.contlen == 0) &&
            (r.SendFailed? ==> req.state == Done && (req.status == ConnClosed || req.status == IntErr))
    ensures req.reqline == old(req.reqline)
  {
    var n;
    n, sock' := req.SendHttpResponse(sock, req.status);
    if n < 0 {
      return;
    }
    req.fields, req.state := req.fields.(contlen := 0), SendBody;
  }

  /** handle_get at SEND_BODY: send the object from the file position on;
      a send that would block suspends at SEND_BODY without an answer; a
      failed send is answered once with its status; a finished one ends the
      request without a further answer. */
  method GetSendBody(req: Request, sock: Socket, disk: Disk, files: Files) returns (sock': Socket, files': Files)
    requires req.Valid() && req.state == SendBody && req.reqline.reqMethod == Get && req.fields.contlen >= 0
    modifies req
    ensures req.Valid()
    ensures var r := SendChunks(disk.content, files.pos, old(req.fields.contlen), sock);
            files' == files.(pos := r.pos) &&
            (r.end == Blocked ==>
               req.status == Suspend && req.state == SendBody && req.responses == old(req.responses) && sock' == r.sock &&
               req.fields.contlen == r.contlen) &&
            (r.end == Finished ==>
               req.status == Ok && req.state == Done && req.responses == old(req.responses) && sock' == r.sock &&
               req.fields.contlen == r.contlen) &&
            (r.end.Failed? ==>
               req.state == Done && (req.status == ConnClosed || req.status == IntErr) &&
               req.responses == old(req.responses) +
                 [if r.end.errno == EPIPE || r.end.errno == ECONNRESET then ConnClosed else IntErr])
    ensures files.pos == old(req.fields.contlen) && files.pos <= |disk.content| && req.status == Suspend ==>
              files'.pos == req.fields.contlen && files.pos <= files'.pos <= |disk.content| &&
              sock'.delivered == sock.delivered + disk.content[files.pos..files'.pos]
    ensures req.reqline == old(req.reqline)
  {
    ghost var r := SendChunks(disk.content, files.pos, req.fields.contlen, sock);
    SendChunksCounts(disk.content, files.pos, req.fields.contlen, sock);
    if files.pos == req.fields.contlen && files.pos <= |disk.content| {
      SendChunksSuspends(disk.content, files.pos, sock);
    }
    var n, pos;
    n, sock', pos := req.SendHttpBody(sock, disk.content, files.pos);
    files' := files.(pos := pos);
    if n < 0 {
      if req.status == Suspend {
        assert r.end == Blocked;
        return;
      }
      assert r.end.Failed?;
      var _, s := req.SendHttpResponse(sock', req.status);
      sock' := s;
    }
  }

  /** handle_get from SEND_ACK on: send the header, then the body. With no
      failing send, a GET at SEND_ACK (file position 0) sends the header
      announcing contlen bytes, then the whole object, and ends in DONE with
      OK; one at SEND_BODY sends the rest of the object from the file
      position. A call that suspends does so at SEND_BODY, answering nothing
      at that step, with the file position back at contlen and the object
      delivered up to there; a GET in any other state is left alone. */
  method GetSendSteps(req: Request, sock: Socket, disk: Disk, files: Files) returns (sock': Socket, files': Files)
    requires req.Valid() && req.reqline.reqMethod == Get && req.status == Ok
    modifies req
    ensures req.Valid() && req.reqline == old(req.reqline) && files'.tmp == files.tmp
    ensures req.status == Suspend ==> req.state == SendBody
    ensures old(req.state) == SendBody && req.status == Suspend ==> req.responses == old(req.responses)
    ensures old(req.state) != SendAck && old(req.state) != SendBody ==>
              req.Header() == old(req.Header()) && req.responses == old(req.responses) && sock' == sock && files' == files
    ensures old(req.state) == SendAck && files.pos == 0 && NoRefusals(sock.acks) ==>
              req.state == Done && req.status == Ok && req.responses == old(req.responses) + [Ok] &&
              sock'.delivered == Send(sock, GetOkMsg(old(req.fields.contlen))).1.delivered + disk.content &&
              files'.pos == |disk.content|
    ensures old(req.state) == SendBody && files.pos <= |disk.content| && NoRefusals(sock.acks) ==>
              req.state == Done && req.status == Ok && req.responses == old(req.responses) &&
              sock'.delivered == sock.delivered + disk.content[files.pos..] && files'.pos == |disk.content|
    ensures old(req.state) == SendAck && files.pos == 0 && req.status == Suspend ==>
              files'.pos == req.fields.contlen && files'.pos <= |disk.content| &&
              sock'.delivered == Send(sock, GetOkMsg(old(req.fields.contlen))).1.delivered + disk.content[..files'.pos]
    ensures old(req.state) == SendBody && files.pos == old(req.fields.contlen) <= |disk.content| && req.status == Suspend ==>
              files'.pos == req.fields.contlen && files.pos <= files'.pos <= |disk.content| &&
              sock'.delivered == sock.delivered + disk.content[files.pos..files'.pos]
  {
    sock', files' := sock, files;
    ghost var acked := Send(sock, GetOkMsg(req.fields.contlen)).1;
    if NoRefusals(sock.acks) {
      NoRefusalsSend(sock, GetOkMsg(req.fields.contlen));
    }
    if req.state == SendAck {
      sock' := GetSendAck(req, sock');
      if req.state != SendBody {
        return;
      }
      assert sock' == acked;
      assert disk.content[0..] == disk.content;
    }
    if req.state == SendBody {
      if NoRefusals(sock'.acks) && files'.pos <= |disk.content| {
        SendChunksDelivers(disk.content, files'.pos, req.fields.contlen, sock');
      }
      sock', files' := GetSendBody(req, sock', disk, files');
    }
  }

  /** handle_get: the steps from HANDLE_REQUEST to the end of the body. A
      refused object is answered once with its status. A served object,
      with no failing send, gets the header announcing its size and then
      all its bytes, and the request ends in DONE with OK. A call that
      suspends does so at SEND_BODY, having answered nothing in that step,
      with the file position back at contlen and the object delivered up to
      there, which is where the next call resumes; a GET in any other state
      is left alone. */
  method HandleGet(req: Request, sock: Socket, disk: Disk, files: Files) returns (sock': Socket, files': Files)
    requires req.Valid() && req.reqline.reqMethod == Get && req.status == Ok
    modifies req
    ensures req.Valid() && req.reqline == old(req.reqline)
    ensures old(req.state) == HandleRequest && GetRefusal(disk).Some? ==>
              req.responses == old(req.responses) + [GetRefusal(disk).value] &&
              (req.state == HandleRequest || req.state == Done)
    ensures req.status == Suspend ==> req.state == SendBody
    ensures old(req.state) == SendBody && req.status == Suspend ==> req.responses == old(req.responses)
    ensures old(req.state) !in {HandleRequest, SendAck, SendBody} ==>
              req.Header() == old(req.Header()) && req.responses == old(req.responses) && sock' == sock && files' == files
    ensures files'.tmp == files.tmp
    ensures old(req.state) == HandleRequest && GetRefusal(disk).None? && NoRefusals(sock.acks) ==>
              req.state == Done && req.status == Ok && req.responses == old(req.responses) + [Ok] &&
              sock'.delivered == Send(sock, GetOkMsg(disk.sizeStat.size)).1.delivered + disk.content &&
              files'.pos == |disk.content|
    ensures old(req.state) == SendBody && files.pos <= |disk.content| && NoRefusals(sock.acks) ==>
              req.state == Done && req.status == Ok && req.responses == old(req.responses) &&
              sock'.delivered == sock.delivered + disk.content[files.pos..] && files'.pos == |disk.content|
    ensures old(req.state) == HandleRequest && GetRefusal(disk).None? && req.status == Suspend ==>
              files'.pos == req.fields.contlen && files'.pos <= |disk.content| &&
              sock'.delivered == Send(sock, GetOkMsg(disk.sizeStat.size)).1.delivered + disk.content[..files'.pos]
    ensures old(req.state) == SendAck && files.pos == 0 && req.status == Suspend ==>
              files'.pos == req.fields.contlen && files'.pos <= |disk.content| &&
              sock'.delivered == Send(sock, GetOkMsg(old(req.fields.contlen))).1.delivered + disk.content[..files'.pos]
    ensures old(req.state) == SendBody && files.pos == old(req.fields.contlen) <= |disk.content| && req.status == Suspend ==>
              files'.pos == req.fields.contlen && files.pos <= files'.pos <= |disk.content| &&
              sock'.delivered == sock.delivered + disk.content[files.pos..files'.pos]
  {
    sock', files' := sock, files;
    if req.state == HandleRequest {
      sock', files' := GetHandleRequest(req, sock', disk, files');
      if req.state != SendAck {
        return;
      }
    }
    sock', files' := GetSendSteps(req, sock', disk, files');
  }

  // ---------------------------------------------------------------------------
  // The body steps handle_put and handle_append share

  /** RECV_REM_BODY and then RECV_BODY: the body bytes carried over after the
      header (carried) and then those received from the peer (received) go,
      in that order, to the end of the temporary file, and contlen goes down
      by exactly their number. Receiving suspends at RECV_BODY without an
      answer; a failed receive is answered once with INT_ERR; stop tells the
      handler to return. A request in any other state is left alone. */
  method ReceiveBodySteps(req: Request, sock: Socket, files: Files)
    returns (sock': Socket, files': Files, stop: bool, ghost carried: seq<char>, ghost received: seq<char>)
    requires req.Valid() && req.reqline.reqMethod != Get
    modifies req
    ensures req.Valid()
    ensures files' == files.(tmp := files.tmp + carried + received)
    ensures |carried| + |received| == old(req.fields.contlen) - req.fields.contlen
    ensures old(req.state) == RecvRemBody && old(req.fields.contlen) > 0 ==>
              carried == req.buf[req.reqeo..req.reqeo + (if req.rembytes > 0 then req.rembytes else 0)]
    ensures old(req.state) != RecvRemBody || old(req.fields.contlen) <= 0 ==> carried == []
    ensures old(req.fields.contlen) >= 0 ==> 0 <= req.fields.contlen <= old(req.fields.contlen)
    ensures received <= Pending(sock.inbox)
    ensures old(req.state) == RecvRemBody || old(req.state) == RecvBody ==>
              (!stop ==> req.state == WriteBody && req.status == Ok && req.responses == old(req.responses)) &&
              (stop && req.status == Suspend ==> req.state == RecvBody && req.responses == old(req.responses)) &&
              (stop && req.status != Suspend ==> req.state == Done && req.responses == old(req.responses) + [IntErr]) &&
              (!stop ==> req.fields.contlen <= 0 || Closed(sock'))
    ensures old(req.state) != RecvRemBody && old(req.state) != RecvBody ==>
              !stop && req.Header() == old(req.Header()) && req.responses == old(req.responses) &&
              sock' == sock && received == []
    ensures req.reqline == old(req.reqline) && req.obj == old(req.obj) && req.tmpFd == old(req.tmpFd)
    ensures req.reqeo == old(req.reqeo) && req.rembytes == old(req.rembytes)
  {
    var kept: seq<char>, got: seq<char> := [], [];
    sock', stop := sock, false;
    if req.state == RecvRemBody {
      var _, written := req.RecvRemHttpBody();
      kept := written;
    }
    if req.state == RecvBody {
      var n, written;
      n, sock', written := req.RecvHttpBody(sock');
      got := written;
      if n < 0 {
        stop := true;
        if req.status != Suspend {
          sock' := Respond(req, sock');
        }
      }
    }
    files', carried, received := files.(tmp := files.tmp + kept + got), kept, got;
  }

  // ---------------------------------------------------------------------------
  // handle_put

  /** handle_put at HANDLE_REQUEST: open the object; a missing one is to be
      created (object status CREATED, no directory check); any other
      failure, or a directory, is answered once with its status and stops.
      Otherwise create the temporary file (INT_ERR when that fails) and go
      on to RECV_REM_BODY. */
  method PutHandleRequest(req: Request, sock: Socket, disk: Disk) returns (sock': Socket)
    requires req.Valid() && req.state == HandleRequest && req.reqline.reqMethod == Put
    modifies req
    ensures req.Valid()
    ensures PutRefusal(disk, old(req.obj.status)).None? ==>
              req.state == RecvRemBody && sock' == sock && req.responses == old(req.responses) &&
              req.obj.status == (if disk.open.OpenFailed? then Created else old(req.obj.status)) &&
              req.tmpFd == (if disk.mkstemp.Opened? then disk.mkstemp.fd else -1) &&
              req.status == (if disk.mkstemp.OpenFailed? then IntErr
                             else if disk.open.OpenFailed? then FileNotFound else old(req.status)) &&
              req.fields == old(req.fields)
    ensures PutRefusal(disk, old(req.obj.status)).Some? ==>
              req.responses == old(req.responses) + [PutRefusal(disk, old(req.obj.status)).value] &&
              ((req.state == HandleRequest && req.status == PutRefusal(disk, old(req.obj.status)).value) ||
               (req.state == Done && (req.status == ConnClosed || req.status == IntErr)))
    ensures req.reqline == old(req.reqline) && req.reqeo == old(req.reqeo) && req.rembytes == old(req.rembytes)
    ensures req.fields == old(req.fields)
  {
    sock' := sock;
    var open := OpenObject(disk.open, req.status);
    req.status := open.1;
    if open.0 < 0 {
      if req.status == FileNotFound {
        req.obj := req.obj.(status := Created);
      } else {
        sock' := Respond(req, sock');
        return;
      }
    }
    if req.obj.status != Created {
      var dir := FileIsDir(disk.dirStat, req.status);
      req.status := dir.1;
      if dir.0 != 0 {
        sock' := Respond(req, sock');
        return;
      }
    }
    var tmp := CreateTmpfile(disk.mkstemp, req.status);
    req.tmpFd, req.status, req.state := tmp.0, tmp.1, RecvRemBody;
  }

  /** handle_put at WRITE_BODY: the temporary file replaces the object
      (stored), and the object status becomes OK when an object was there
      to unlink; then DONE, answered with the object status: 200 for a
      replaced object, 201 for a created one. */
  method PutWriteBody(req: Request, sock: Socket, disk: Disk, files: Files) returns (sock': Socket, stored: seq<char>)
    requires req.Valid() && req.state == WriteBody && req.reqline.reqMethod == Put
    modifies req
    ensures req.Valid()
    ensures stored == files.tmp
    ensures req.obj.status == if disk.unlinked then Ok else old(req.obj.status)
    ensures req.responses == old(req.responses) + [req.obj.status]
    ensures req.state == Done && (req.status == old(req.status) || req.status == ConnClosed || req.status == IntErr)
    ensures req.reqline == old(req.reqline) && req.fields == old(req.fields)
    ensures req.reqeo == old(req.reqeo) && req.rembytes == old(req.rembytes) && sock'.inbox == sock.inbox
  {
    if disk.unlinked {
      req.obj := req.obj.(status := Ok);
    }
    stored := files.tmp;
    req.state := Done;
    var _, s := req.SendHttpResponse(sock, req.obj.status);
    sock' := s;
  }

  /** handle_put from RECV_REM_BODY on: the body steps, then WRITE_BODY. The
      object stored is the temporary file: what it held, then the carried-over
      bytes, then the bytes received. Unless the call suspends at RECV_BODY
      or a receive fails (answered with INT_ERR), the object is stored. */
  method PutBodySteps(req: Request, sock: Socket, disk: Disk, files: Files)
    returns (sock': Socket, files': Files, stored: Option<seq<char>>, ghost carried: seq<char>, ghost received: seq<char>)
    requires req.Valid() && req.reqline.reqMethod == Put && req.status != Suspend
    modifies req
    ensures req.Valid() && req.reqline == old(req.reqline)
    ensures req.reqeo == old(req.reqeo) && req.rembytes == old(req.rembytes)
    ensures req.status == Suspend ==> req.state == RecvBody && stored == None && req.responses == old(req.responses)
    ensures files' == files.(tmp := files.tmp + carried + received)
    ensures |carried| + |received| == old(req.fields.contlen) - req.fields.contlen
    ensures old(req.state) == RecvRemBody && old(req.fields.contlen) > 0 ==>
              carried == req.buf[req.reqeo..req.reqeo + (if req.rembytes > 0 then req.rembytes else 0)]
    ensures old(req.state) != RecvRemBody || old(req.fields.contlen) <= 0 ==> carried == []
    ensures old(req.fields.contlen) >= 0 ==> 0 <= req.fields.contlen <= old(req.fields.contlen)
    ensures received <= Pending(sock.inbox)
    ensures stored.Some? ==> stored == Some(files.tmp + carried + received) && req.state == Done &&
                             req.responses == old(req.responses) + [req.obj.status]
    ensures stored.Some? && old(req.state) != WriteBody ==> req.fields.contlen <= 0 || Closed(sock')
    ensures stored.Some? && files.tmp == [] ==> stored == Some(carried + received)
    ensures old(req.state) in {RecvRemBody, RecvBody, WriteBody} ==>
              stored.Some? || (req.status == Suspend && req.state == RecvBody) ||
              (req.state == Done && req.responses == old(req.responses) + [IntErr])
  {
    var stop;
    stored := None;
    sock', files', stop, carried, received := ReceiveBodySteps(req, sock, files);
    if stop {
      return;
    }
    if req.state == WriteBody {
      var s, t := PutWriteBody(req, sock', disk, files');
      sock', stored := s, Some(t);
      if files.tmp == [] {
        NothingStaged(files.tmp, carried, received);
      }
    }
  }

  /** handle_put: HANDLE_REQUEST, the body steps, WRITE_BODY. A refused
      object is answered once with its status and nothing is stored. An
      accepted one (a missing object included) is stored unless the call
      suspends at RECV_BODY or a receive fails; what is stored is the
      temporary file, which gains the body bytes carried over after the
      header and then those received, as many as contlen announced. The
      answer is the object status. */
  method HandlePut(req: Request, sock: Socket, disk: Disk, files: Files)
    returns (sock': Socket, files': Files, stored: Option<seq<char>>, ghost carried: seq<char>, ghost received: seq<char>)
    requires req.Valid() && req.reqline.reqMethod == Put && req.status == Ok && req.state != Done
    modifies req
    ensures req.Valid() && req.reqline == old(req.reqline)
    ensures old(req.state) == HandleRequest && PutRefusal(disk, old(req.obj.status)).Some? ==>
              req.responses == old(req.responses) + [PutRefusal(disk, old(req.obj.status)).value] &&
              stored == None
    ensures req.status == Suspend ==> req.state == RecvBody && stored == None
    ensures files' == files.(tmp := files.tmp + carried + received)
    ensures |carried| + |received| == old(req.fields.contlen) - req.fields.contlen
    ensures (old(req.state) == RecvRemBody ||
             (old(req.state) == HandleRequest && PutRefusal(disk, old(req.obj.status)).None?)) &&
            old(req.fields.contlen) > 0 ==>
              carried == req.buf[req.reqeo..req.reqeo + (if req.rembytes > 0 then req.rembytes else 0)]
    ensures old(req.fields.contlen) >= 0 ==> 0 <= req.fields.contlen <= old(req.fields.contlen)
    ensures old(req.state) !in {HandleRequest, RecvRemBody} || old(req.fields.contlen) <= 0 ==> carried == []
    ensures old(req.fields.contlen) == 0 ==> files' == files
    ensures received <= Pending(sock.inbox)
    ensures stored.Some? ==> stored == Some(files.tmp + carried + received) && req.state == Done &&
                             req.responses == old(req.responses) + [req.obj.status]
    ensures stored.Some? && old(req.state) != WriteBody ==> req.fields.contlen <= 0 || Closed(sock')
    ensures stored.Some? && files.tmp == [] && req.fields.contlen == 0 ==>
              stored == Some(carried + received) && |carried + received| == old(req.fields.contlen)
    ensures old(req.state) in {RecvRemBody, RecvBody, WriteBody} ||
            (old(req.state) == HandleRequest && PutRefusal(disk, old(req.obj.status)).None?) ==>
              stored.Some? || (req.status == Suspend && req.state == RecvBody) ||
              (req.state == Done && req.responses == old(req.responses) + [IntErr])
    ensures old(req.state) == RecvBody && req.status == Suspend ==> req.responses == old(req.responses)
  {
    sock', files', stored, carried, received := sock, files, None, [], [];
    if req.state == HandleRequest {
      sock' := PutHandleRequest(req, sock', disk);
      if req.state != RecvRemBody {
        return;
      }
    }
    sock', files', stored, carried, received := PutBodySteps(req, sock', disk, files');
  }

  // ---------------------------------------------------------------------------
  // handle_append

  /** handle_append at HANDLE_REQUEST: open the object; a failure, or a
      directory, is answered once with its status and never reaches
      RECV_REM_BODY. Otherwise create the temporary file (INT_ERR when that
      fails), record the announced length as the object size and go on to
      RECV_REM_BODY. */
  method AppendHandleRequest(req: Request, sock: Socket, disk: Disk) returns (sock': Socket)
    requires req.Valid() && req.state == HandleRequest && req.reqline.reqMethod == Append
    modifies req
    ensures req.Valid()
    ensures Refusal(disk).None? ==>
              req.state == RecvRemBody && sock' == sock && req.responses == old(req.responses) &&
              req.obj == old(req.obj).(size := old(req.fields.contlen)) &&
              req.tmpFd == (if disk.mkstemp.Opened? then disk.mkstemp.fd else -1) &&
              req.status == (if disk.mkstemp.OpenFailed? then IntErr else old(req.status)) &&
              req.fields == old(req.fields)
    ensures Refusal(disk).Some? ==>
              req.responses == old(req.responses) + [Refusal(disk).value] &&
              ((req.state == HandleRequest && req.status == Refusal(disk).value) ||
               (req.state == Done && (req.status == ConnClosed || req.status == IntErr)))
    ensures req.reqline == old(req.reqline) && req.reqeo == old(req.reqeo) && req.rembytes == old(req.rembytes)
    ensures req.fields == old(req.fields)
  {
    sock' := sock;
    var open := OpenObject(disk.open, req.status);
    req.status := open.1;
    if open.0 < 0 {
      sock' := Respond(req, sock');
      return;
    }
    var dir := FileIsDir(disk.dirStat, req.status);
    req.status := dir.1;
    if dir.0 != 0 {
      sock' := Respond(req, sock');
      return;
    }
    var tmp := CreateTmpfile(disk.mkstemp, req.status);
    req.tmpFd, req.status := tmp.0, tmp.1;
    req.obj, req.state := req.obj.(size := req.fields.contlen), RecvRemBody;
  }

  /** handle_append at WRITE_BODY: reopen the object for writing; a failure
      is answered once with its status, still at WRITE_BODY. Otherwise
      append_file adds the object size's worth of the temporary file to the
      object (stored), and the request ends (DONE), answered with its
      status. */
  method AppendWriteBody(req: Request, sock: Socket, disk: Disk, files: Files)
    returns (sock': Socket, stored: Option<seq<char>>)
    requires req.Valid() && req.state == WriteBody && req.reqline.reqMethod == Append
    modifies req
    ensures req.Valid()
    ensures disk.reopen.OpenFailed? ==>
              stored == None && req.obj == old(req.obj).(fd := -1) &&
              req.responses == old(req.responses) + [OpenStatus(disk.reopen.errno)] &&
              ((req.state == WriteBody && req.status == OpenStatus(disk.reopen.errno)) ||
               (req.state == Done && (req.status == ConnClosed || req.status == IntErr)))
    ensures disk.reopen.Opened? ==>
              stored == Some(AppendFile(disk.content, files.tmp, old(req.obj.size))) &&
              req.obj == old(req.obj).(fd := disk.reopen.fd) && req.state == Done &&
              req.responses == old(req.responses) + [old(req.status)] &&
              (req.status == old(req.status) || req.status == ConnClosed || req.status == IntErr)
    ensures req.reqline == old(req.reqline) && req.fields == old(req.fields)
    ensures req.reqeo == old(req.reqeo) && req.rembytes == old(req.rembytes) && sock'.inbox == sock.inbox
  {
    var open := OpenObject(disk.reopen, req.status);
    req.obj, req.status := req.obj.(fd := open.0), open.1;
    if open.0 < 0 {
      sock' := Respond(req, sock);
      stored := None;
      return;
    }
    stored := Some(AppendFile(disk.content, files.tmp, req.obj.size));
    req.state := Done;
    sock' := Respond(req, sock);
  }

  /** handle_append from RECV_REM_BODY on: the body steps, then WRITE_BODY.
      The temporary file gains the carried-over bytes and then the bytes
      received; what is appended to the object is the object size's worth
      of it. Unless the call suspends at RECV_BODY, a receive fails
      (answered with INT_ERR) or the reopen fails (answered with its
      status), the object is stored. */
  method AppendBodySteps(req: Request, sock: Socket, disk: Disk, files: Files)
    returns (sock': Socket, files': Files, stored: Option<seq<char>>, ghost carried: seq<char>, ghost received: seq<char>)
    requires req.Valid() && req.reqline.reqMethod == Append && req.status != Suspend
    requires req.state == WriteBody ==> req.status == Ok
    modifies req
    ensures req.Valid() && req.reqline == old(req.reqline) && req.obj.size == old(req.obj.size)
    ensures req.reqeo == old(req.reqeo) && req.rembytes == old(req.rembytes)
    ensures req.status == Suspend ==> req.state == RecvBody && stored == None && req.responses == old(req.responses)
    ensures files' == files.(tmp := files.tmp + carried + received)
    ensures |carried| + |received| == old(req.fields.contlen) - req.fields.contlen
    ensures old(req.state) == RecvRemBody && old(req.fields.contlen) > 0 ==>
              carried == req.buf[req.reqeo..req.reqeo + (if req.rembytes > 0 then req.rembytes else 0)]
    ensures old(req.state) != RecvRemBody || old(req.fields.contlen) <= 0 ==> carried == []
    ensures old(req.fields.contlen) >= 0 ==> 0 <= req.fields.contlen <= old(req.fields.contlen)
    ensures received <= Pending(sock.inbox)
    ensures stored.Some? ==> stored == Some(AppendFile(disk.content, files.tmp + carried + received, req.obj.size)) &&
                             req.state == Done && req.responses == old(req.responses) + [Ok]
    ensures stored.Some? && old(req.state) != WriteBody ==> req.fields.contlen <= 0 || Closed(sock')
    ensures stored.Some? && files.tmp == [] && req.fields.contlen == 0 && req.obj.size == old(req.fields.contlen) ==>
              stored == Some(disk.content + (carried + received))
    ensures old(req.state) in {RecvRemBody, RecvBody, WriteBody} ==>
              stored.Some? || (req.status == Suspend && req.state == RecvBody) ||
              (req.state == Done && req.responses == old(req.responses) + [IntErr]) ||
              (disk.reopen.OpenFailed? && req.responses == old(req.responses) + [OpenStatus(disk.reopen.errno)])
  {
    var stop;
    stored := None;
    sock', files', stop, carried, received := ReceiveBodySteps(req, sock, files);
    if stop {
      return;
    }
    if req.state == WriteBody {
      sock', stored := AppendWriteBody(req, sock', disk, files');
      if stored.Some? && files.tmp == [] && req.fields.contlen == 0 && req.obj.size == old(req.fields.contlen) {
        NothingStaged(files.tmp, carried, received);
        AppendFileWhole(disk.content, carried + received);
      }
    }
  }

  /** handle_append: HANDLE_REQUEST, the body steps, WRITE_BODY. A refused
      object is answered once with its status and nothing is stored. For an
      accepted one the announced length is captured as the object size, and
      unless the call suspends at RECV_BODY or a receive or the reopen
      fails, the object gains exactly that many bytes of the temporary
      file: the body carried over after the header, then the bytes
      received. */
  method HandleAppend(req: Request, sock: Socket, disk: Disk, files: Files)
    returns (sock': Socket, files': Files, stored: Option<seq<char>>, ghost carried: seq<char>, ghost received: seq<char>)
    requires req.Valid() && req.reqline.reqMethod == Append && req.status == Ok && req.state != Done
    modifies req
    ensures req.Valid() && req.reqline == old(req.reqline)
    ensures old(req.state) == HandleRequest && Refusal(disk).Some? ==>
              req.responses == old(req.responses) + [Refusal(disk).value] && stored == None &&
              (req.state == HandleRequest || req.state == Done)
    ensures old(req.state) == HandleRequest && Refusal(disk).None? ==> req.obj.size == old(req.fields.contlen)
    ensures req.status == Suspend ==> req.state == RecvBody && stored == None
    ensures files' == files.(tmp := files.tmp + carried + received)
    ensures |carried| + |received| == old(req.fields.contlen) - req.fields.contlen
    ensures (old(req.state) == RecvRemBody || (old(req.state) == HandleRequest && Refusal(disk).None?)) &&
            old(req.fields.contlen) > 0 ==>
              carried == req.buf[req.reqeo..req.reqeo + (if req.rembytes > 0 then req.rembytes else 0)]
    ensures old(req.fields.contlen) >= 0 ==> 0 <= req.fields.contlen <= old(req.fields.contlen)
    ensures old(req.state) !in {HandleRequest, RecvRemBody} || old(req.fields.contlen) <= 0 ==> carried == []
    ensures old(req.fields.contlen) == 0 ==> files' == files
    ensures received <= Pending(sock.inbox)
    ensures stored.Some? ==> stored == Some(AppendFile(disk.content, files.tmp + carried + received, req.obj.size)) &&
                             req.state == Done && req.responses == old(req.responses) + [Ok]
    ensures stored.Some? && old(req.state) != WriteBody ==> req.fields.contlen <= 0 || Closed(sock')
    ensures old(req.state) == HandleRequest && stored.Some? && files.tmp == [] && req.fields.contlen == 0 ==>
              stored == Some(disk.content + (carried + received)) && |carried + received| == old(req.fields.contlen)
    ensures old(req.state) in {RecvRemBody, RecvBody, WriteBody} ||
            (old(req.state) == HandleRequest && Refusal(disk).None?) ==>
              stored.Some? || (req.status == Suspend && req.state == RecvBody) ||
              (req.state == Done && req.responses == old(req.responses) + [IntErr]) ||
              (disk.reopen.OpenFailed? && req.responses == old(req.responses) + [OpenStatus(disk.reopen.errno)])
    ensures old(req.state) == RecvBody && req.status == Suspend ==> req.responses == old(req.responses)
  {
    sock', files', stored, carried, received := sock, files, None, [], [];
    if req.state == HandleRequest {
      sock' := AppendHandleRequest(req, sock', disk);
      if req.state != RecvRemBody {
        return;
      }
    }
    sock', files', stored, carried, received := AppendBodySteps(req, sock', disk, files');
  }

  // ---------------------------------------------------------------------------
  // handle_connection

  /** The front of handle_connection: at RECV_HEADER receive the header and,
      when that ends at PARSE_HEADER, parse it in the same call (received is
      the request between the two); at PARSE_HEADER parse it; in any other
      state do nothing. */
  method ReceiveAndParse(req: Request, sock: Socket, m: Matches) returns (sock': Socket, ghost received: Parsed)
    requires req.Valid()
    modifies req, req.buf
    ensures req.Valid()
    ensures old(req.state) == RecvHeader ==>
              old(req.size) <= req.size && Pending(sock.inbox) == req.buf[old(req.size)..req.size] + Pending(sock'.inbox) &&
              received == old(req.Header()).(status := received.status, state := received.state) &&
              (received.status == Suspend || received.status == IntErr || received.status == Ok) &&
              (received.status == Suspend ==> received.state == RecvHeader) &&
              (received.status == IntErr ==> received.state == Done) &&
              (received.status == Ok ==> received.state == ParseHeader)
    ensures old(req.state) == ParseHeader ==> received == old(req.Header()) && sock' == sock
    ensures old(req.state) != RecvHeader ==> req.size == old(req.size) && req.buf[..] == old(req.buf[..])
    ensures old(req.state) == RecvHeader || old(req.state) == ParseHeader ==>
              req.Header() == if received.state == ParseHeader then ParseSpec(req.Text(), req.size, received, m) else received
    ensures old(req.state) != RecvHeader && old(req.state) != ParseHeader ==>
              req.Header() == old(req.Header()) && sock' == sock
    ensures req.obj == old(req.obj) && req.tmpFd == old(req.tmpFd) && req.responses == old(req.responses)
    ensures sock'.acks == sock.acks && sock'.delivered == sock.delivered
  {
    sock', received := sock, req.Header();
    if req.state == RecvHeader {
      sock' := req.RecvHttpRequest(sock');
      received := req.Header();
    }
    if req.state == ParseHeader {
      req.ParseHttpRequest(m);
    }
  }

  /** The rest of handle_connection once the header is in: an OK request
      that is not DONE goes to its method's handler (nothing for a request
      without a method); otherwise, unless suspended, it is answered once
      with its status. What each handler promises carries over: a served
      GET delivers the header and the object, a suspended one the part
      sent so far; an accepted PUT or APPEND stores the temporary file (or
      appends it) unless it suspends or fails, and one whose temporary file
      started empty stores exactly the body. */
  method Dispatch(req: Request, sock: Socket, disk: Disk, files: Files)
    returns (sock': Socket, files': Files, stored: Option<seq<char>>, ghost carried: seq<char>, ghost received: seq<char>)
    requires req.Valid()
    modifies req
    ensures req.Valid() && req.reqline == old(req.reqline)
    ensures old(req.status) == Suspend ==>
              req.Header() == old(req.Header()) && req.responses == old(req.responses) && stored == None
    ensures !(old(req.status) == Ok && old(req.state) != Done) && old(req.status) != Suspend ==>
              req.responses == old(req.responses) + [old(req.status)] && stored == None
    ensures old(req.status) == Ok && old(req.state) != Done && old(req.reqline.reqMethod) == NoMethod ==>
              req.Header() == old(req.Header()) && req.responses == old(req.responses) && stored == None
    ensures stored.Some? ==>
              old(req.status) == Ok && old(req.state) != Done &&
              old(req.reqline.reqMethod) != Get && old(req.reqline.reqMethod) != NoMethod
    ensures files'.tmp == files.tmp + carried + received
    ensures old(req.reqline.reqMethod) != Get ==>
              |carried| + |received| == old(req.fields.contlen) - req.fields.contlen &&
              (old(req.fields.contlen) >= 0 ==> 0 <= req.fields.contlen <= old(req.fields.contlen)) &&
              (old(req.state) !in {HandleRequest, RecvRemBody} || old(req.fields.contlen) <= 0 ==> carried == [])
    ensures stored.Some? && old(req.reqline.reqMethod) == Put ==>
              stored == Some(files'.tmp) && req.state == Done && req.responses == old(req.responses) + [req.obj.status]
    ensures stored.Some? && old(req.reqline.reqMethod) == Append ==>
              stored == Some(AppendFile(disk.content, files'.tmp, req.obj.size)) && req.state == Done &&
              req.responses == old(req.responses) + [Ok]
    ensures old(req.status) == Ok && old(req.state) == HandleRequest && old(req.reqline.reqMethod) == Get &&
            GetRefusal(disk).None? && NoRefusals(sock.acks) ==>
              req.state == Done && req.status == Ok && req.responses == old(req.responses) + [Ok] &&
              sock'.delivered == Send(sock, GetOkMsg(disk.sizeStat.size)).1.delivered + disk.content
    ensures old(req.status) == Ok && old(req.state) == HandleRequest && old(req.reqline.reqMethod) == Get &&
            GetRefusal(disk).None? && req.status == Suspend ==>
              req.state == SendBody && files'.pos == req.fields.contlen && files'.pos <= |disk.content| &&
              sock'.delivered == Send(sock, GetOkMsg(disk.sizeStat.size)).1.delivered + disk.content[..files'.pos]
    ensures old(req.status) == Ok && old(req.state) == SendBody && old(req.reqline.reqMethod) == Get &&
            files.pos <= |disk.content| && NoRefusals(sock.acks) ==>
              req.state == Done && req.status == Ok && req.responses == old(req.responses) &&
              sock'.delivered == sock.delivered + disk.content[files.pos..] && files'.pos == |disk.content|
    ensures old(req.status) == Ok && old(req.state) == SendBody && old(req.reqline.reqMethod) == Get &&
            files.pos == old(req.fields.contlen) <= |disk.content| && req.status == Suspend ==>
              req.state == SendBody && req.responses == old(req.responses) &&
              files'.pos == req.fields.contlen && files.pos <= files'.pos <= |disk.content| &&
              sock'.delivered == sock.delivered + disk.content[files.pos..files'.pos]
    ensures old(req.status) == Ok && old(req.state) == HandleRequest && old(req.reqline.reqMethod) == Put &&
            PutRefusal(disk, old(req.obj.status)).None? ==>
              stored.Some? || (req.status == Suspend && req.state == RecvBody) ||
              (req.state == Done && req.responses == old(req.responses) + [IntErr])
    ensures old(req.status) == Ok && old(req.state) == HandleRequest && old(req.reqline.reqMethod) == Append &&
            Refusal(disk).None? ==>
              stored.Some? || (req.status == Suspend && req.state == RecvBody) ||
              (req.state == Done && req.responses == old(req.responses) + [IntErr]) ||
              (disk.reopen.OpenFailed? && req.responses == old(req.responses) + [OpenStatus(disk.reopen.errno)])
    ensures old(req.state) == HandleRequest && stored.Some? && files.tmp == [] && req.fields.contlen == 0 ==>
              |carried + received| == old(req.fields.contlen) &&
              stored == Some(if old(req.reqline.reqMethod) == Put then carried + received
                             else disk.content + (carried + received))
  {
    files', stored, carried, received := files, None, [], [];
    sock' := sock;
    if req.status == Ok && req.state != Done {
      match req.reqline.reqMethod
      case Get =>
        sock', files' := HandleGet(req, sock', disk, files');
      case Put =>
        sock', files', stored, carried, received := HandlePut(req, sock', disk, files');
      case Append =>
        sock', files', stored, carried, received := HandleAppend(req, sock', disk, files');
      case NoMethod =>
    } else if req.status != Suspend {
      sock' := Respond(req, sock');
    }
  }

  /** handle_connection: receive and parse (front is the request after
      them), then Dispatch: the method's handler for an OK request that is
      not DONE, and otherwise, unless suspended, exactly one answer with the
      status. A suspended call answers nothing. */
  method HandleConnection(req: Request, sock: Socket, m: Matches, disk: Disk, files: Files)
    returns (sock': Socket, files': Files, stored: Option<seq<char>>, ghost front: Parsed,
             ghost carried: seq<char>, ghost received: seq<char>)
    requires req.Valid()
    modifies req, req.buf
    ensures req.Valid() && req.reqline == front.reqline
    ensures old(req.state) == RecvHeader ==>
              (front.status == Suspend && front.state == RecvHeader) || front.state == HandleRequest || front.state == Done
    ensures old(req.state) == ParseHeader ==> front == ParseSpec(old(req.Text()), old(req.size), old(req.Header()), m)
    ensures old(req.state) != RecvHeader && old(req.state) != ParseHeader ==> front == old(req.Header())
    ensures front.status == Suspend ==> req.Header() == front && req.responses == old(req.responses) && stored == None
    ensures !(front.status == Ok && front.state != Done) && front.status != Suspend ==>
              req.responses == old(req.responses) + [front.status] && stored == None
    ensures front.status == Ok && front.state != Done && front.reqline.reqMethod == NoMethod ==>
              req.Header() == front && req.responses == old(req.responses) && stored == None
    ensures stored.Some? ==> front.status == Ok && front.state != Done && front.reqline.reqMethod != Get
    ensures files'.tmp == files.tmp + carried + received
    ensures front.reqline.reqMethod != Get ==>
              |carried| + |received| == front.fields.contlen - req.fields.contlen &&
              (front.fields.contlen >= 0 ==> 0 <= req.fields.contlen <= front.fields.contlen) &&
              (front.state !in {HandleRequest, RecvRemBody} || front.fields.contlen <= 0 ==> carried == [])
    ensures stored.Some? && front.reqline.reqMethod == Put ==>
              stored == Some(files'.tmp) && req.state == Done && req.responses == old(req.responses) + [req.obj.status]
    ensures stored.Some? && front.reqline.reqMethod == Append ==>
              stored == Some(AppendFile(disk.content, files'.tmp, req.obj.size)) && req.state == Done &&
              req.responses == old(req.responses) + [Ok]
    ensures front.status == Ok && front.state == HandleRequest && front.reqline.reqMethod == Get &&
            GetRefusal(disk).None? && NoRefusals(sock.acks) ==>
              req.state == Done && req.status == Ok && req.responses == old(req.responses) + [Ok] &&
              sock'.delivered == Send(sock, GetOkMsg(disk.sizeStat.size)).1.delivered + disk.content
    ensures front.status == Ok && front.state == HandleRequest && front.reqline.reqMethod == Get &&
            GetRefusal(disk).None? && req.status == Suspend ==>
              req.state == SendBody && files'.pos == req.fields.contlen && files'.pos <= |disk.content| &&
              sock'.delivered == Send(sock, GetOkMsg(disk.sizeStat.size)).1.delivered + disk.content[..files'.pos]
    ensures front.status == Ok && front.state == SendBody && front.reqline.reqMethod == Get &&
            files.pos <= |disk.content| && NoRefusals(sock.acks) ==>
              req.state == Done && req.status == Ok && req.responses == old(req.responses) &&
              sock'.delivered == sock.delivered + disk.content[files.pos..] && files'.pos == |disk.content|
    ensures front.status == Ok && front.state == SendBody && front.reqline.reqMethod == Get &&
            files.pos == front.fields.contlen <= |disk.content| && req.status == Suspend ==>
              req.state == SendBody && req.responses == old(req.responses) &&
              files'.pos == req.fields.contlen && files.pos <= files'.pos <= |disk.content| &&
              sock'.delivered == sock.delivered + disk.content[files.pos..files'.pos]
    ensures front.status == Ok && front.state == HandleRequest && front.reqline.reqMethod == Put &&
            PutRefusal(disk, old(req.obj.status)).None? ==>
              stored.Some? || (req.status == Suspend && req.state == RecvBody) ||
              (req.state == Done && req.responses == old(req.responses) + [IntErr])
    ensures front.status == Ok && front.state == HandleRequest && front.reqline.reqMethod == Append &&
            Refusal(disk).None? ==>
              stored.Some? || (req.status == Suspend && req.state == RecvBody) ||
              (req.state == Done && req.responses == old(req.responses) + [IntErr]) ||
              (disk.reopen.OpenFailed? && req.responses == old(req.responses) + [OpenStatus(disk.reopen.errno)])
    ensures front.state == HandleRequest && stored.Some? && files.tmp == [] && req.fields.contlen == 0 ==>
              |carried + received| == front.fields.contlen &&
              stored == Some(if front.reqline.reqMethod == Put then carried + received
                             else disk.content + (carried + received))
  {
    ghost var parsed;
    sock', parsed := ReceiveAndParse(req, sock, m);
    front := req.Header();
    if disk.sizeStat.Stat? {
      SendIgnoresInbox(sock', sock, GetOkMsg(disk.sizeStat.size));
    }
    sock', files', stored, carried, received := Dispatch(req, sock', disk, files);
  }

  // ---------------------------------------------------------------------------
  // threadpool_suspend_connection

  /** What epoll waits for on a suspended connection. */
  datatype PollEvent = PollIn | PollOut

  /** A suspended GET waits until it can send again, anything else until
      there is more to receive. */
  function PollEvents(m: Method): (e: PollEvent)
    ensures e == PollOut <==> m == Get
  {
    if m == Get then PollOut else PollIn
  }

  /** threadpool_suspend_connection: the request goes back to epoll with
      its status reset to OK, so that the next handle_connection call
      dispatches it again at the state it stopped in. */
  method SuspendConnection(req: Request) returns (events: PollEvent)
    requires req.Valid()
    modifies req
    ensures req.Valid() && req.Header() == old(req.Header()).(status := Ok)
    ensures events == PollEvents(req.reqline.reqMethod)
    ensures req.obj == old(req.obj) && req.tmpFd == old(req.tmpFd) && req.responses == old(req.responses)
  {
    events := PollEvents(req.reqline.reqMethod);
    req.status := Ok;
  }
}
