/** The Winsock vocabulary the network library relies on: the constants it compares
    against, and the outcomes of the foreign calls it makes. Every OS call the library
    issues (getaddrinfo, socket, bind, listen, connect, accept, ioctlsocket, select,
    recv, send, GetTickCount) is represented by the value it hands back, supplied by the
    caller of the model as an oracle; what the OS does to produce it is not modelled. */
module Winsock {

  /** `SOCKET_ERROR`, the value a failed call returns. */
  const SOCKET_ERROR: int := -1

  /** `INVALID_SOCKET` (`~0`) once stored in the library's `int` handles. */
  const INVALID_SOCKET: int := -1

  /** `WSAEWOULDBLOCK`: a non-blocking socket has nothing to give (or no room) right now. */
  const WSAEWOULDBLOCK: int := 10035

  /** `FD_SETSIZE`: the capacity of an `fd_set` (the Winsock default, which the library keeps). */
  const FD_SETSIZE: nat := 64

  /** What `WSAGetLastError` reports after a failed call: never 0. */
  type ErrorCode = c: int | c != 0 witness WSAEWOULDBLOCK

  /** A socket handle as the library stores it: any `int` except `INVALID_SOCKET`. */
  type Handle = h: int | h != INVALID_SOCKET witness 0

  datatype Option<+T> = None | Some(value: T)

  /** The outcome of a call that either succeeds or fails with a last-error code
      (getaddrinfo, bind, listen, connect, ioctlsocket). */
  datatype OsCall = Done | Failed(code: ErrorCode)

  /** The outcome of a call that creates a handle (socket, accept). */
  datatype SocketCall = Created(handle: Handle) | CreateFailed(code: ErrorCode)

  /** The outcome of `select`: a count of ready sockets, or `SOCKET_ERROR` with a code. */
  datatype SelectCall = Selected(ready: nat) | SelectFailed(code: ErrorCode)

  /** The outcome of one `recv`. `Delivered(queued)` is a successful call when the peer
      has the bytes `queued` waiting; `recv` copies as many of them as its length allows.
      `Delivered([])` is the orderly shutdown of the peer (recv returns 0). */
  datatype RecvCall = Delivered(queued: seq<char>) | RecvFailed(code: ErrorCode)

  /** The outcome of one `send`: the socket had room for `room` bytes (send copies as
      many as its length allows, possibly 0), or the call failed. */
  datatype SendCall = Accepted(room: nat) | SendFailed(code: ErrorCode)

  function Min(a: int, b: int): (m: int)
    ensures m <= a && m <= b && (m == a || m == b)
  {
    if a <= b then a else b
  }
}
