# httpserver in Dafny

httpserver is a small multi-threaded HTTP/1.1 file server written in C. Clients
send GET, PUT and APPEND requests, each naming an object, which is a file in
the server's directory. GET returns the file. PUT creates or replaces it with
the request body. APPEND adds the body to an existing file. Connection sockets are
blocking, but receiving the header, receiving the body and sending a GET's
body pass `MSG_DONTWAIT`, so those steps can return at once with "would
block". A request that cannot go on right now is
suspended: it is parked in a red-black tree keyed by its socket descriptor
until the socket is ready. It then resumes at the same step of its state
machine. Worker threads take ready connections from a FIFO work queue. That
queue is built on a doubly-linked list.

This project models the sequential core in Dafny and proves properties of it:

- `util.dfy` (module `Util`): the decimal converters and `strlower`.
  `strlower` is an in-place loop on a character array. Also the substring test.
- `status.dfy` (module `Status`) and `response.dfy` (module `Response`): the
  status codes and the fixed response texts. `Response` is a reader for
  responses, used to prove that every message says what it means.
- `linkedlist.dfy` (module `LinkedList`): the doubly-linked list with its
  sentinel head and tail nodes, as a class over linked `Node` objects. Its
  ghost `Contents` sequence is its abstraction.
- `queue.dfy` (module `Queue`): the FIFO built on that list.
- `rbtree.dfy`, `rbcases.dfy` and `redblack.dfy` (modules `RbTree`,
  `RbCases` and `RedBlack`): the red-black tree of suspended connections.
  - Trees are values.
  - A path of frames from a node up to the root stands for the parent
    pointers.
  - The descent, `rb_tree_min` and both fixups are while-loops over a
    (node, path) zipper.
  - Class `RedBlackMap` holds the root and the `size` counter.
  - Its ghost `Contents()` is the map from keys to values.
- `io.dfy` (module `Io`): the peer and the disk, as values and scripts of
  events.
  - `recv` and `send` are functions.
  - Open and fstat outcomes are datatypes.
- `request.dfy` (module `Request`): `request_t` as class `Request`, and the
  receive, parse and send steps of `request.c`. The regex matches of
  `parse_http_request` are inputs.
- `httpserver.dfy` (module `HttpServer`): the handlers of `httpserver.c` as
  step methods on a `Request`, with the file-system answers as inputs. Also the
  errno-to-status rules of `ioutil.c` and the event choice of
  `threadpool_suspend_connection`.

Several things are parameters. The bytes a client sends and how the peer
takes sends come as a `Socket` value. What `open`, `fstat`, `mkstemp` and
`unlink` answer comes as a `Disk` value. The contents of the object file and
the temporary file come as values too. Each step returns the socket and the
file contents after it.

## Model

| member | source | states |
|---|---|---|
| Util.StrToUint16 | util.c:10-18 | the value of a well-formed decimal in 1..65535; 0 for anything else (non-positive, too large, trailing garbage, empty) |
| Util.StrToUint32 | util.c:25-33 | the value of a well-formed decimal in 1..UINT32_MAX; 0 otherwise |
| Util.StrToInt64u | util.c:41-49 | 0 for the empty string, the value (clamped to int64) for a non-negative decimal, INT64_MIN for a negative or malformed one |
| Util.StrToLL | util.c:10-49 | the strtol/strtoll reference: it consumes the whole string exactly when the string is a signed decimal numeral, and then the value is that numeral clamped to int64 |
| Util.StrToUint16RoundTrip | util.c:10-18 | the decimal text of any n in 1..65535 converts back to n |
| Util.StrToUint32RoundTrip | util.c:25-33 | the decimal text of any n in 1..UINT32_MAX converts back to n |
| Util.StrToInt64uRoundTrip | util.c:41-49 | the decimal text of any int64 n converts back to n when n >= 0, and to INT64_MIN when n < 0 |
| Util.StrLower | util.c:56-62 | the in-place loop leaves the array equal to the lowercased C string, followed by the untouched bytes from the NUL on |
| Util.LowerProperties | util.c:56-62 | lowering keeps the length, changes only 'A'..'Z' (to 'a'..'z'), and is idempotent |
| Util.StrContains | util.c:70-72 | true exactly when t occurs at some position of s |
| Util.FirstOccurrence | util.c:70-72 | the first position of t in s, and None exactly when t does not occur |
| Status.Value | status.h:20-30 | the enum value: an HTTP code (200..599) for the HTTP statuses, and 0 or -1 for SUSPEND and CONN_CLOSED |
| Status.ValueInjective | status.h:20-30 | distinct statuses have distinct enum values |
| Status.ResolveStatusMsgShape | status.h:32-43 | each status's message is the status line of its code and reason, a Content-Length equal to the body's length, and the body (reason and newline); statuses outside the table get the 400 message |
| Status.ResolveStatusMsgReadsBack | status.h:6-14 | reading back any message gives its code and reason, a Content-Length equal to the length of the body after the blank line, and that body |
| Status.GetOkMsg | status.h:6 | GET_OK_MSG with length n is the 200 OK status line, Content-Length n and an empty body |
| Status.GetOkMsgReadsBack | status.h:6 | reading back GET_OK_MSG gives code 200, reason OK, the supplied length and an empty body |
| Response.ParseMessage | status.h:6-14 | the response reader recovers code, reason, length and body from any message built the way status.h builds them |
| LinkedList.List.constructor | linkedlist.c:31-43 | a new list is valid and empty: size 0 and head.next == tail |
| LinkedList.List.Size | linkedlist.c:58-60 | size is the number of elements between the sentinels |
| LinkedList.List.Empty | linkedlist.c:62-64 | true exactly when the list holds no element |
| LinkedList.PushFront | linkedlist.c:66-78 | false exactly for a null list; otherwise the element comes first and the rest follows unchanged |
| LinkedList.PushBack | linkedlist.c:80-92 | false exactly for a null list; otherwise the element comes last and the rest is unchanged |
| LinkedList.List.PopFront | linkedlist.c:94-106 | None on an empty list, leaving it empty; otherwise the first element, with the list holding the rest |
| LinkedList.List.PopBack | linkedlist.c:108-120 | None on an empty list; otherwise the last element, with the list holding all the others |
| LinkedList.List.Prepend | linkedlist.c:66-78 | the pointer splice after the head sentinel keeps every prev/next link consistent and adds the element first |
| LinkedList.List.Append | linkedlist.c:80-92 | the pointer splice before the tail sentinel keeps every link consistent and adds the element last |
| Queue.Queue.constructor | queue.c:9-17 | a new queue is valid and empty |
| Queue.Queue.Size | queue.c:27-29 | the queue's size is the number of elements waiting |
| Queue.Queue.Empty | queue.c:31-33 | true exactly when no element waits |
| Queue.Enqueue | queue.c:35-41 | false exactly for a null queue; otherwise the element joins the end of the FIFO order |
| Queue.Dequeue | queue.c:43-50 | false, with the out value untouched, exactly for a null or empty queue; otherwise the oldest element, with the rest left in order |
| RedBlack.Search | redblack.c:59-67 | the descent keeps the tree it walks; the node it stops at holds key k; in a search tree it stops at a node exactly when k is a key |
| RedBlack.TreeMin | redblack.c:45-57 | the leftmost node of the subtree: it has no left child, it holds the first in-order entry, and in a search tree its key is the minimum |
| RbTree.RotateLeft | redblack.c:69-88 | the in-order entries are kept; x's right child takes x's place with x below it on the left |
| RbTree.RotateRight | redblack.c:90-109 | the in-order entries are kept; the mirror image of the left rotation |
| RbTree.RotationsInverse | redblack.c:69-109 | a right rotation undoes a left rotation |
| RedBlack.InsertFixup | redblack.c:111-153 | from a tree whose only fault is a red node under a red parent, the loop ends with a balanced red-black tree (black root, no red-red edge, equal black heights) holding the same entries |
| RedBlack.RbInsert | redblack.c:155-188 | the result is a valid red-black search tree whose map is the old map with key set to val; a new node is added exactly when the key was absent, and the entry count grows by one then and is unchanged otherwise |
| RedBlack.Transplant | redblack.c:190-200 | putting v in place of the subtree at a path gives the entries before the path, v's entries, then the entries after it |
| RedBlack.DeleteFixup | redblack.c:202-262 | from a tree that is one black short along x's path, the loop ends with a balanced red-black tree holding the same entries |
| RedBlack.RbDelete | redblack.c:264-299 | removing node z leaves a balanced tree with the entries before z, z's subtrees' entries and the entries after z: only z's entry is gone |
| RedBlack.RedBlackMap.constructor | redblack.c:316-327 | a new map is valid, empty, with size 0 |
| RedBlack.RedBlackMap.Size | redblack.c:316-327 | the size counter equals the number of keys |
| RedBlack.RedBlackMap.Insert | redblack.c:339-341 | the map becomes old[key := val]; size grows by one exactly when the key was new |
| RedBlack.RedBlackMap.Extract | redblack.c:343-353 | an absent key gives None and changes nothing; a present key gives its value, removes only that key and decrements size |
| RedBlack.RedBlackMap.Delete | redblack.c:355-363 | an absent key changes nothing; a present key is removed alone and size decrements |
| Request.Request.constructor | request.c:16-28 | state RECV_HEADER, status OK, contlen -1, reqid 0, object fd -1 and status OK, tmp fd -1, empty header |
| Request.Request.RecvHttpRequest | request.c:61-83 | the buffer only grows, by exactly the bytes the peer sent, without passing REQSIZE; would-block gives SUSPEND at the same state; another error gives INT_ERR and DONE; otherwise OK and PARSE_HEADER, with the header end seen, the buffer full or the peer closed |
| Request.ParseSpec | request.c:239-359 | every parse ends in OK and HANDLE_REQUEST, or in INT_ERR, BAD_REQUEST or NOT_IMPL and DONE |
| Request.ParseNotImplemented | request.c:257-273 | NOT_IMPL exactly when the method is not one of GET, get, PUT, put, APPEND, append |
| Request.ParseLongObject | request.c:278-285 | an object name over 19 characters gives BAD_REQUEST and DONE |
| Request.ParseBare | request.c:294-305 | a request with no header fields is accepted for GET and refused with BAD_REQUEST for PUT and APPEND |
| Request.ParseBodyLength | request.c:335-340 | a PUT or APPEND whose contlen is negative (including a malformed Content-Length) gives BAD_REQUEST |
| Request.ParseCarriesBody | request.c:342-357 | on success the header ends just after the first blank line; rembytes is min(contlen, size - header end); remout holds exactly when rembytes > 0; for a PUT or APPEND, 0 <= rembytes <= contlen |
| Request.ParseKeepsBounds | request.c:349-357 | parsing keeps the carried-over body inside the received bytes, and for a PUT or APPEND within contlen |
| Request.ParseRequest | request.c:239-359 | the imperative parse, with its field loop, computes ParseSpec |
| Request.Request.ParseHttpRequest | request.c:239-359 | the request's fields become ParseSpec of the received header; the buffer is untouched |
| Request.Request.RecvRemHttpBody | request.c:85-108 | exactly max(rembytes, 0) carried-over bytes are written when contlen > 0, and contlen drops by that count; WRITE_BODY exactly when nothing remains, otherwise RECV_BODY |
| Request.ReceiveBody | request.c:119-143 | contlen drops by exactly the bytes kept and stays >= 0; the kept bytes are the next bytes the peer sent; bytes beyond contlen are read only once contlen is 0 |
| Request.Request.RecvHttpBody | request.c:119-143 | the written bytes are a prefix of what the peer sent and their count is the drop in contlen; would-block gives SUSPEND at RECV_BODY, another error INT_ERR and DONE, success WRITE_BODY |
| Request.SendChunksCounts | request.c:165-188 | for the corrected loop (bytes counted as sent): contlen never drops and counts no more than the bytes left; a normal end leaves the read position at the start plus what was counted; after a would-block the read position is set back to contlen |
| Request.SendChunksAsWrittenCounts | request.c:165-188 | for the loop as written (contlen += bytes read): contlen never drops, stays within the file and is never less than the bytes that reached the peer; the inbox is untouched; a normal end leaves the read position at the start plus what was counted; after a would-block the read position is set back to contlen |
| Request.SendChunksDelivered | request.c:154-189 | the bytes that reach the peer are exactly the object's bytes from the starting position, as many as contlen counts as sent |
| Request.SendChunksDelivers | request.c:154-189 | with no failing send the loop finishes, the whole rest of the object reaches the peer, and contlen grows by its length |
| Request.SendChunksSuspends | request.c:164-167 | a send that would block, started with the read position equal to contlen, leaves them equal again and not past the end of the object, with the peer having had the object from the starting position up to the new one, so the next call resumes there |
| Request.Request.SendHttpBody | request.c:154-189 | follows the corrected send loop (see Findings): a normal end gives OK and DONE; would-block gives SUSPEND at SEND_BODY with the read position set back to contlen; EPIPE or ECONNRESET gives CONN_CLOSED and DONE; another failure gives INT_ERR and DONE |
| Request.Request.SendHttpResponse | request.c:199-230 | sends GET_OK_MSG with contlen for a successful GET and the status's message otherwise; a failed send gives CONN_CLOSED (EPIPE, ECONNRESET) or INT_ERR, and DONE |
| HttpServer.OpenStatus | ioutil.c:63-74 | a failed open answers FILE_NOT_FOUND exactly for ENOENT, FORBIDDEN exactly for EACCES, BAD_REQUEST otherwise |
| HttpServer.StatStatus | ioutil.c:123-159 | a failed fstat answers FORBIDDEN exactly for EACCES, INT_ERR otherwise |
| HttpServer.AppendFileAppends | ioutil.c:103-114 | append_file keeps the object's bytes and adds the first min(n, tmp size) bytes of the temporary file |
| HttpServer.Refusal | httpserver.c:207-222 | an APPEND (and the first part of a GET) is refused exactly when the open fails, fstat fails or the object is a directory, and the refusal is 404, 403, 400 or 500 |
| HttpServer.GetRefusal | httpserver.c:84-108 | a GET is refused exactly when open, the directory check or the size lookup fails |
| HttpServer.PutRefusal | httpserver.c:140-157 | a PUT is refused exactly when open fails other than with ENOENT (then with open's status), or the object exists, is not already marked CREATED, and fstat fails or it is a directory (then as Refusal); a missing object is never refused |
| HttpServer.GetHandleRequest | httpserver.c:84-108 | without a refusal it moves to SEND_ACK with the file size as contlen and sends nothing; otherwise it sends exactly one response, with the refusal's status |
| HttpServer.GetSendAck | httpserver.c:112-119 | sends the 200 header with the file size; entering SEND_BODY resets contlen to 0; a failed send ends in DONE |
| HttpServer.GetSendBody | httpserver.c:121-129 | over the corrected send loop: a SUSPEND returns with no response, in SEND_BODY, with contlen the bytes counted so far; started with the read position at contlen it leaves the two equal, the peer having had the object from the old position up to the new one; a normal end gives DONE with no further response; a failed send gives DONE and one response |
| HttpServer.GetSendSteps | httpserver.c:110-129 | from SEND_ACK with no failing send: the header with contlen, then the whole object, ending in DONE with OK; from SEND_BODY: the rest of the object; SUSPEND only at SEND_BODY, with no response, the read position equal to contlen, and the peer having had the header (from SEND_ACK) and the object up to that position |
| HttpServer.HandleGet | httpserver.c:83-130 | a refusal gives exactly one response with its status; a served GET with no failing send ends in DONE with OK, one 200 response, and the peer gets the GET_OK_MSG header announcing the file size followed by the whole object; a resumed SEND_BODY delivers the rest of the object from the read position; SUSPEND happens only at SEND_BODY, sends nothing, and leaves the read position equal to contlen with the peer having had the header and the object up to it (or, on a resumed call, the object from the old position up to it) |
| HttpServer.PutHandleRequest | httpserver.c:140-163 | FILE_NOT_FOUND on open sets the object status to CREATED and goes on to RECV_REM_BODY; any other refusal sends one response and stops |
| HttpServer.ReceiveBodySteps | httpserver.c:166-178 | the temporary file gains the carried-over bytes and then the bytes received, as many as contlen drops; nothing is carried unless the call starts at RECV_REM_BODY with contlen > 0; a non-negative contlen stays between 0 and its old value, so the body never exceeds Content-Length; a SUSPEND returns at RECV_BODY with no response; an error answers INT_ERR |
| HttpServer.PutWriteBody | httpserver.c:180-194 | the stored object is the temporary file; a successful unlink sets the object status to OK, so the answer is 200 for an existing object and 201 for a new one; the state becomes DONE |
| HttpServer.PutBodySteps | httpserver.c:165-194 | the body steps then WRITE_BODY: the object stored is the temporary file plus the carried and received bytes, at most Content-Length of them, and nothing carried on a call from RECV_BODY; it is stored unless the call suspends at RECV_BODY or a receive fails |
| HttpServer.HandlePut | httpserver.c:139-195 | a refusal gives one response and stores nothing; an accepted PUT is stored unless it suspends at RECV_BODY or a receive fails (INT_ERR); the temporary file gains the carried-over header bytes (none on a resumed RECV_BODY call) then the received bytes, as many as contlen drops and never more than Content-Length; Content-Length 0 leaves the temporary file as it was; the stored object is that file, answered with the object status; from an empty temporary file with the whole length received it is exactly the body |
| HttpServer.AppendHandleRequest | httpserver.c:207-236 | without a refusal the declared length is captured in the object size and the state becomes RECV_REM_BODY; otherwise one response with the refusal's status |
| HttpServer.AppendWriteBody | httpserver.c:254-270 | a failed reopen answers with open's status and stores nothing; otherwise the object becomes append_file of the temporary file with exactly the captured size, answered OK, in DONE |
| HttpServer.AppendBodySteps | httpserver.c:233-270 | the body steps then WRITE_BODY: the object becomes append_file of the temporary file plus the carried and received bytes (at most Content-Length, nothing carried from RECV_BODY) for the object size; it is stored unless the call suspends, a receive fails or the reopen fails |
| HttpServer.HandleAppend | httpserver.c:204-271 | a refusal gives one response and never reaches RECV_REM_BODY; the declared length becomes the object size; an accepted APPEND stores unless it suspends, a receive fails or the reopen fails; the stored object is append_file of the temporary file (carried bytes, none on a resumed RECV_BODY call, then received bytes, never more than Content-Length) for that size; Content-Length 0 leaves the temporary file as it was; from an empty temporary file with the whole length received it is the old bytes followed by exactly the body |
| HttpServer.ReceiveAndParse | httpserver.c:274-280 | receive then parse in one call when both apply; the parse outcome is ParseSpec of the received header |
| HttpServer.Dispatch | httpserver.c:282-292 | the rest of handle_connection: an OK request that is not DONE goes to its handler (no method changes nothing), otherwise one response with its status unless suspended; the handlers' outcomes carry over (delivery of a served GET, of a GET resumed at SEND_BODY and of a suspended one up to its read position; storage of an accepted PUT or APPEND, the staged bytes counted by the contlen drop, bounded by Content-Length and with nothing carried on a resumed call, the stored bytes being the body); the request line is kept |
| HttpServer.HandleConnection | httpserver.c:273-293 | dispatches to a handler only with OK and not DONE; never responds on SUSPEND; any other outcome of the front gives exactly one response with that status; for a dispatched request the handler's outcomes carry over (a served GET delivers header and object; a GET resumed at SEND_BODY delivers the rest of the object, and one that suspends has delivered up to its read position, which equals contlen, so consecutive calls chain; a PUT or APPEND stores the staged body, at most Content-Length bytes and with nothing carried on a resumed RECV_BODY call, unless it suspends or fails) |
| HttpServer.PollEvents | threadpool.c:89 | a suspended GET waits for the socket to be writable, any other request for it to be readable |
| HttpServer.SuspendConnection | threadpool.c:84-95 | the status is reset to OK and nothing else changes; the events are those of the request's method |

## Left out

- Pointer structure of the red-black tree: trees are values. Parent pointers are a zipper path, and the shared `nil` sentinel is the `Nil` leaf. In-place updates of the parent, left, right and color fields, and aliasing through `nil->parent`, are not captured. The loops and their case analyses are kept.
- RedBlack.RbDelete: the caller finds the node first (Search), as the source does. It is stated over entries and balance rather than over the map; RedBlackMap.Delete and Extract state the map.
- Memory management: all `malloc` and `free`, and the destroy functions (`rb_tree_destroy`, `ll_destroy`, `queue_destroy`, `request_destroy`). Dafny has no explicit deallocation.
- `main`, the listening socket, signals, `usage` and `log_request`: process setup and log output.
- `file_lock`, `maplock` and the locks of the thread pool: each model runs one request at a time, and concurrency is not modelled.
- Worker threads of threadpool.c and the epoll wrapper connpoll.c: only the method-to-event choice and the status reset of `threadpool_suspend_connection` are modelled. Its registry insert is RedBlackMap.Insert.
- POSIX regex compilation and matching (re.c): the match offsets are inputs (`Matches`), not a regex grammar.
- File writes, `rename`, `copy_file_range` and `read_bytes` are assumed to succeed and to move whole buffers.
- A failed `mkstemp` (descriptor -1): the model lets the later writes land in the temporary file's bytes. In C, `write_bytes(-1, …)` adds the -1 that `write` returns to its `size_t` total, so for a non-empty write it loops for about 2^64 turns (ioutil.c:48-51). The INT_ERR that `create_tmpfile` sets is also overwritten with OK by `recv_rem_http_body` (request.c:91-107), as the model does.
- Request.Request.SendHttpResponse: `send_http_response` sends with flags 0 (request.c:210) on a blocking socket, so in C it waits until the whole message is taken. The model treats it like the `MSG_DONTWAIT` sends: it may take a prefix, or fail with EWOULDBLOCK, which gives INT_ERR. Its contracts cover those extra outcomes as well.
- `close(fd)` calls: descriptors are recorded but not released.
- Full `strtol`/`strtoll` semantics: leading whitespace and errno are not modelled. Plain optionally-signed decimals are, with clamping to the int64 range.
- C strings with embedded NUL bytes: request text is the buffer up to its first NUL, as `strstr` and `strlen` see it.
- Request.Request.RecvHttpRequest: the buffer is not NUL-terminated when it is full in C, so `strstr` may read past it. The model stops at the buffer's end.
- Bytes are `char`: the server treats data as bytes, and no encoding is modelled.
- The `sprintf` buffer of `send_http_response`: the GET_OK_MSG text is built directly.
- Content-Length 0: a documented rule says a PUT or APPEND needs a positive length. The code rejects only negative values (request.c:335-340), and the model follows the code.
- HttpServer.HandleGet, HttpServer.HandlePut and HttpServer.HandleAppend: these require status OK, and HandlePut and HandleAppend also require a state other than DONE. This is because `handle_connection` calls them only then (httpserver.c:282-288).
- Request.Request.SendHttpBody, HttpServer.GetSendBody: the state machine counts the bytes each `send` took, not the bytes read (request.c:183 adds `nbytes`). On a partial send the model therefore delivers the bytes that the source drops (see Findings). HttpServer.GetSendSteps, HttpServer.HandleGet, HttpServer.Dispatch and HttpServer.HandleConnection inherit this. The source's loop as written is `Request.SendChunksAsWritten`, and its bookkeeping is Request.SendChunksAsWrittenCounts.
- Request.SendChunksCounts: it is stated of the corrected loop. The same bookkeeping for the loop as written is Request.SendChunksAsWrittenCounts.

## Findings

| source | as written | input that shows it | evidently intended | confidence | as-written member | corrected member |
|---|---|---|---|---|---|---|
| request.c:154-189 | `send_http_body` adds the bytes it read (`nbytes`) to `contlen` rather than the bytes `send` took, so a partial send counts the whole chunk as sent and the rest of the chunk is never sent | an object "ab" sent to a peer whose first send takes 1 byte: only "a" is delivered, yet contlen becomes 2 and the loop ends normally | count the bytes each send took, and read on from there, so the peer gets the whole object | not executed (the state machine, `Request.Request.SendHttpBody` and the GET handler, uses the corrected loop) | Request.SendChunksAsWrittenLosesBytes | Request.SendChunksDelivered |
