/** The outside world of a request, as the server's system calls see it. The
    client socket and the file system are values: each call on them is a
    function returning the call's result and the world after it. What the
    peer or the disk does is given up front, as a script of events. */
module Io {

  /** The errno values the request code tells apart; EOTHER is any other. */
  datatype Errno = EWOULDBLOCK | EPIPE | ECONNRESET | ENOENT | EACCES | EOTHER

  /** One thing recv(2) can find on the socket: bytes the peer sent, or a
      failure (EWOULDBLOCK: nothing has arrived yet). An empty Bytes is the
      peer's orderly shutdown, after which recv keeps returning 0. */
  datatype RecvEvent = Bytes(data: seq<char>) | Fails(errno: Errno)

  type Positive = n: nat | n > 0 witness 1

  /** How the peer's side answers one send(2): it takes at most n bytes (at
      least one: a send that can take nothing fails with EWOULDBLOCK), or the
      call fails. */
  datatype SendEvent = Take(n: Positive) | Refuse(errno: Errno)

  /** How the next sends will go, one event per send; once the script has
      run out (Whole) every send is taken whole. */
  datatype SendScript = Whole | Then(event: SendEvent, rest: SendScript)

  /** The client socket: what the peer will send (inbox), how the next sends
      will go (acks), and every byte that has reached the peer so far
      (delivered). */
  datatype Socket = Socket(inbox: seq<RecvEvent>, acks: SendScript, delivered: seq<char>)

  datatype RecvResult = Received(data: seq<char>) | RecvFailed(errno: Errno)
  datatype SendResult = Sent(n: nat) | SendFailed(errno: Errno)

  /** All the bytes still to come, in order. */
  function Pending(inbox: seq<RecvEvent>): seq<char> {
    if inbox == [] then []
    else (if inbox[0].Bytes? then inbox[0].data else []) + Pending(inbox[1..])
  }

  /** The peer has shut its side down: recv returns 0. */
  predicate Closed(s: Socket) {
    |s.inbox| > 0 && s.inbox[0] == Bytes([])
  }

  /** Shrinks with every recv that consumes an event or a byte. */
  function Work(s: Socket): nat {
    |Pending(s.inbox)| + |s.inbox|
  }

  /** recv(2) with MSG_DONTWAIT asking for at most cap bytes. With no
      event pending it would block; asked for nothing it returns 0. Bytes
      beyond cap stay for the next call. */
  function Recv(s: Socket, cap: nat): (r: (RecvResult, Socket))
    ensures r.1.acks == s.acks && r.1.delivered == s.delivered
    ensures r.0.Received? ==> |r.0.data| <= cap
    ensures r.0.Received? ==> Pending(s.inbox) == r.0.data + Pending(r.1.inbox)
    ensures r.0.Received? && r.0.data == [] ==> r.1 == s && (cap == 0 || Closed(s))
    ensures r.0.Received? && r.0.data != [] ==> Work(r.1) < Work(s)
    ensures r.0.RecvFailed? ==> Pending(r.1.inbox) == Pending(s.inbox) && Work(r.1) <= Work(s)
    ensures r.0.RecvFailed? && r.0.errno != EWOULDBLOCK ==> Work(r.1) < Work(s)
  {
    if cap == 0 then (Received([]), s)
    else if s.inbox == [] then (RecvFailed(EWOULDBLOCK), s)
    else
      var rest := s.inbox[1..];
      match s.inbox[0]
      case Fails(e) => (RecvFailed(e), s.(inbox := rest))
      case Bytes(d) =>
        if |d| == 0 then (Received([]), s)
        else if |d| <= cap then (Received(d), s.(inbox := rest))
        else
          var more := [Bytes(d[cap..])] + rest;
          assert more[1..] == rest;
          assert d == d[..cap] + d[cap..];
          (Received(d[..cap]), s.(inbox := more))
  }

  /** send(2) of msg: the peer takes a prefix of it (all of it once the
      script of acks has run out), or the call fails and nothing is sent. */
  function Send(s: Socket, msg: seq<char>): (r: (SendResult, Socket))
    ensures r.1.inbox == s.inbox
    ensures r.1.acks == if s.acks.Whole? then Whole else s.acks.rest
    ensures r.0.Sent? ==> r.0.n <= |msg| && r.1.delivered == s.delivered + msg[..r.0.n]
    ensures r.0.SendFailed? ==> r.1.delivered == s.delivered
    ensures r.0.Sent? && msg != [] ==> r.0.n > 0
    ensures s.acks.Whole? ==> r == (Sent(|msg|), s.(delivered := s.delivered + msg))
    ensures s.acks.Then? && s.acks.event.Take? ==> r.0.Sent?
  {
    match s.acks
    case Whole =>
      assert msg[..|msg|] == msg;
      (Sent(|msg|), s.(delivered := s.delivered + msg))
    case Then(Take(n), rest) =>
      var k := if n < |msg| then n else |msg|;
      (Sent(k), s.(acks := rest, delivered := s.delivered + msg[..k]))
    case Then(Refuse(e), rest) => (SendFailed(e), s.(acks := rest))
  }

  /** No send in the script fails. */
  predicate NoRefusals(acks: SendScript) {
    acks.Then? ==> acks.event.Take? && NoRefusals(acks.rest)
  }

  /** A send with no failure left in the script goes through, and leaves
      no failure in the script. */
  lemma NoRefusalsSend(s: Socket, msg: seq<char>)
    requires NoRefusals(s.acks)
    ensures Send(s, msg).0.Sent? && NoRefusals(Send(s, msg).1.acks)
  {
  }

  /** What a send does depends on the script of acks and on what was
      delivered before, not on what the peer has yet to send. */
  lemma SendIgnoresInbox(s: Socket, t: Socket, msg: seq<char>)
    requires s.acks == t.acks && s.delivered == t.delivered
    ensures Send(s, msg).0 == Send(t, msg).0
    ensures Send(s, msg).1.acks == Send(t, msg).1.acks && Send(s, msg).1.delivered == Send(t, msg).1.delivered
  {
  }

  // ---------------------------------------------------------------------------
  // The file system: what open(2) and fstat(2) answer

  /** What open(2) answers. */
  datatype OpenOutcome = Opened(fd: nat) | OpenFailed(errno: Errno)

  /** What fstat(2) answers about an open file: whether it is a directory
      and its size. */
  datatype StatOutcome = Stat(isDir: bool, size: nat) | StatFailed(errno: Errno)
}
