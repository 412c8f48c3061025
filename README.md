# Network library (Winsock) — a Dafny model

This project models the network library of `src/network.cpp`. The library is a thin
layer over Winsock. It keeps every socket it opens in one process-wide `fd_set`, the
master set `g_netSocketsSet`. It opens listening and connecting sockets and accepts
clients; each lands in the master set only after every OS call has succeeded. Its two
poll functions hand `select` a copy of the master set. Its read and send functions
retry on a non-blocking socket under an idle timeout whose deadline slides forward on
every bit of progress.

Modules:

- `Winsock` (`winsock.dfy`): the constants the library compares against. These are
  `SOCKET_ERROR`, `INVALID_SOCKET`, `WSAEWOULDBLOCK` = 10035 and `FD_SETSIZE` = 64.
  The module also holds the outcomes of the foreign calls, as datatypes the caller
  supplies (an oracle).
- `FdSets` (`fdsets.dfy`): the `fd_set` as the class `SocketSet`. It holds a
  64-entry array and a count whose prefix holds the members. `FD_SET` is `Insert`:
  it appends a handle if absent and does nothing when the set is full. `FD_CLR` is
  `Remove`: it shifts later entries down. The `*dst = src` struct copy is `CopyFrom`.
- `Registry` (`registry.dfy`): the open, accept, close and cleanup operations. The
  global master set is passed explicitly as `master`.
- `Poll` (`poll.dfy`): how each poll chooses its `select` timeout, and the copy of
  the master set.
- `Transfer` (`transfer.dfy`): `NetReadFromSocket` and `NetSendToSocket` as loops
  over an `array<char>`. Each is proved equal to a step-by-step specification
  function (`ReadLoop`, `SendLoop`), and the lemmas about the timeout policy are
  stated on that function.

The oracle for a transfer is a sequence of steps. Step `i` holds what the i-th
`recv`/`send` returned and the `GetTickCount` reading taken in that iteration; a
separate `start` reading is taken before the loop. `Delivered(queued)` means the peer
had the bytes `queued` waiting, and `recv` takes as many as its length allows.
`Delivered([])` is the peer's orderly shutdown, so `recv` returns 0. `Accepted(room)`
means `send` could take `room` bytes; it takes as many as its length allows, possibly 0.

The default arguments of `include/network.h:45-47` are default parameters here:
`timeout := 0` for both polls, and `wantsHandle := false` for `NetOpenClientSocket`,
which stands for `pClientSocket = NULL`.

## Model

| member | source | states |
|---|---|---|
| `FdSets.SocketSet.constructor` | src/network.cpp:55 | The master set starts empty. |
| `FdSets.SocketSet.Insert` | src/network.cpp:140 | `FD_SET` appends the handle exactly when it is absent and fewer than 64 are present; otherwise the members are unchanged. The set stays duplicate-free. |
| `FdSets.InsertedAddsOnlyFd` | src/network.cpp:140 | After `FD_SET(fd)`, `fd` is a member iff it already was or there was room. No other handle enters or leaves. The old members stay a prefix, in order. |
| `FdSets.SocketSet.Remove` | src/network.cpp:314 | `FD_CLR` removes the handle's entry and keeps the order of the rest. A handle that is absent leaves the set unchanged. |
| `FdSets.WithoutRemovesExactly` | src/network.cpp:314 | On a duplicate-free set, removal takes out exactly `fd`: every other member stays, and the count drops by one iff `fd` was a member. |
| `FdSets.SocketSet.CopyFrom` | src/network.cpp:243 | The struct copy gives the destination the source's members; the source is not modified. |
| `Registry.NetOpenListenerSocket` | src/network.cpp:110-143 | Returns 0 iff resolve, socket, bind and listen all succeed, and only then adds the new handle to the master set. Otherwise it returns the first failing call's non-zero code and leaves the set unchanged. `*pSocket` keeps its old value, becomes `INVALID_SOCKET`, or holds the new handle. |
| `Registry.NetOpenConnectingSocket` | src/network.cpp:160-187 | The same for resolve, socket and connect. |
| `Registry.NetOpenClientSocket` | src/network.cpp:203-225 | Returns 0 iff accept succeeds and the switch to non-blocking mode succeeds, and only then registers the new handle. It writes the handle out only on success and only when the caller asked for it. Any failure returns its code and leaves the set unchanged. |
| `Registry.NetCloseSocket` | src/network.cpp:312-315 | Exactly the given handle leaves the master set; every other member stays, in order. |
| `Registry.NetCleanupAsWritten` | src/network.cpp:87-92 | The cleanup loop as written closes only the members at even positions. The members at odd positions stay registered. |
| `Registry.CleanupAsWrittenStrandsSecond` | src/network.cpp:88-89 | With two registered sockets `[a, b]`, the loop as written closes `a` only; `b` stays open and registered. |
| `Registry.CleanupAsWrittenStrandsOddPositions` | src/network.cpp:83-89 | With two or more registered sockets, some socket is never closed. No handle left behind was ever passed to `closesocket`. |
| `Registry.NetCleanup` | src/network.cpp:80-92 | As documented: every registered socket is closed, in order, and the master set ends empty. |
| `Poll.ReadWait` | src/network.cpp:247-257 | The read poll blocks without bound iff `timeout <= 0`. Otherwise it waits exactly `timeout` milliseconds, passed as microseconds. |
| `Poll.WriteWait` | src/network.cpp:288-291 | The write poll always passes a bound of `timeout` microseconds, so 0 returns at once. |
| `Poll.PollTimeoutAsymmetry` | src/network.cpp:236-291 | The default timeout 0 blocks the read poll and makes the write poll return at once. A positive timeout makes the read poll wait 1000 times as long as the write poll given the same number. |
| `Poll.PollStatus` | src/network.cpp:259-265 | A poll returns 0 iff `select` succeeds; otherwise it returns `select`'s error code. |
| `Poll.NetPollReadableSockets` | src/network.cpp:241-266 | The output set holds a copy of the master set, and the master set is unchanged. The wait is `ReadWait(timeout)` and the status is `PollStatus`. |
| `Poll.NetPollWritableSockets` | src/network.cpp:282-300 | The same, with the wait `WriteWait(timeout)`. |
| `Transfer.ReadReturn` | src/network.cpp:339-358 | The read returns `SOCKET_ERROR` iff a hard error occurred. It returns 0 when the peer closed. A timeout or a normal exit returns the count in the buffer. |
| `Transfer.ReadLoop` | src/network.cpp:337-356 | The bytes read only grow, from the bytes already held, and never exceed `size`. A normal exit holds exactly `size` bytes (0 when `size <= 0`). A timeout holds fewer than `size`. |
| `Transfer.Recv` | src/network.cpp:338 | One `recv` writes `min(queued, size - total)` bytes at offset `total`, and nothing else in the buffer. |
| `Transfer.NetReadFromSocket` | src/network.cpp:333-359 | The result is `ReadLoop`'s return value. The buffer's prefix holds the received bytes in arrival order, and the rest of the buffer is untouched. |
| `Transfer.ReadFillsRegardlessOfFragmentation` | src/network.cpp:337-358 | A peer that sends exactly `size` bytes without stalling, split in any way, fills the buffer with exactly those bytes. The read then returns `size`, whatever the clock says. |
| `Transfer.ReadTimesOutOnlyAfterIdleGap` | src/network.cpp:343-354 | The deadline slides: a short count happens only at a would-block `recv` taken more than `timeout` ticks after the last progress (or after the start). |
| `Transfer.ReadSteadyPeerNeverTimesOut` | src/network.cpp:353-354 | A peer never silent for more than `timeout` ticks never causes a timeout, however long the transfer takes. |
| `Transfer.ReadHello` | src/network.cpp:333-358 | One `recv` delivering `"hello"` to a 5-byte read fills the buffer with it. |
| `Transfer.ReadPeerClosedReturnsZero` | src/network.cpp:339-341 | A close with nothing read returns 0. A close after 2 of 5 bytes also returns 0, although those bytes are in the buffer. |
| `Transfer.ReadTimesOutAfterIdleGap` | src/network.cpp:337-354 | The converse: if the steps before `p` each deliver bytes or would block within the deadline, fewer than `size` bytes arrive by then, and step `p` would block past the deadline, the read returns exactly the bytes received so far and their count. |
| `Transfer.ReadReachesStep` | src/network.cpp:337-355 | While every step delivers bytes or would block within the deadline and fewer than `size` bytes have arrived, the read reaches step `p` holding exactly the bytes delivered before it, with the deadline of its last progress. |
| `Transfer.ReadClosedAt` | src/network.cpp:337-341 | A `recv` that returns 0 ends the read with `PeerClosed` and the return 0, however many bytes arrived before it. |
| `Transfer.ReadHardErrorAt` | src/network.cpp:342-350 | A `recv` failing with any error other than `WSAEWOULDBLOCK` ends the read with `SOCKET_ERROR`, however many bytes arrived before it and whatever the clock. |
| `Transfer.ReadSteadyPeerCompletes` | src/network.cpp:337-358 | A peer that never closes, never fails hard, never lets the deadline pass and sends at least `size` bytes in all fills the buffer with the first `size` bytes it sent; the read returns `size`. |
| `Transfer.ReadIdleVersusSlowPeer` | src/network.cpp:343-354 | Silence past the deadline after 2 bytes gives the count 2. A slow but steady peer completes after 26 ticks under a 10-tick timeout. |
| `Transfer.ReadIdleBeforeAnyByteReturnsZero` | src/network.cpp:343-345 | A read that times out before any byte arrives returns 0, the same value as a peer close. |
| `Transfer.SendReturn` | src/network.cpp:381-397 | The send returns `SOCKET_ERROR` iff a hard error occurred; otherwise it returns the count sent. |
| `Transfer.SendLoop` | src/network.cpp:379-395 | The count sent only grows and never exceeds `size`. A normal exit has sent exactly `size` (0 when `size <= 0`). A timeout has sent fewer. |
| `Transfer.NetSendToSocket` | src/network.cpp:375-398 | The result is `SendLoop`'s return value. The bytes handed to the OS are exactly the buffer prefix of that length, in order. |
| `Transfer.SendCompletesWhenSocketKeepsUp` | src/network.cpp:379-397 | If every call takes at least one byte, all `size` bytes go out and the send returns `size`. |
| `Transfer.SendTimesOutOnlyAfterIdleGap` | src/network.cpp:381-393 | A short count happens only at a would-block `send` taken more than `timeout` ticks after the last call that did not fail. |
| `Transfer.SendTimesOutAfterIdleGap` | src/network.cpp:379-393 | The converse: if the calls before `p` each take their bytes (possibly none) or would block within the deadline, their room totals less than `size`, and call `p` would block past the deadline, the send returns exactly the count taken so far. |
| `Transfer.SendReachesStep` | src/network.cpp:379-394 | While every call takes its bytes (possibly none) or would block within the deadline and the room so far is below `size`, the send reaches call `p` having sent exactly that room, with the deadline of its last call that did not fail. |
| `Transfer.SendHardErrorAt` | src/network.cpp:381-389 | A `send` failing with any error other than `WSAEWOULDBLOCK` ends the send with `SOCKET_ERROR`, however many bytes went out before it and whatever the clock. |
| `Transfer.SendSteadySocketCompletes` | src/network.cpp:379-397 | A socket that never fails hard, never stays full past the deadline and has room for `size` bytes in all takes the whole buffer, even when some calls take nothing; the send returns `size`. |
| `Transfer.SendZeroCountsAsProgress` | src/network.cpp:391-393 | A `send` that returns 0 moves no byte but still resets the deadline. It turns a run that would time out into one that completes. |

## Left out

- `NetInit` and the `WSAStartup`/`WSACleanup` calls (src/network.cpp:68-75, 91) are foreign library lifecycle calls with no logic of their own.
- getaddrinfo, socket, bind, listen, connect, accept, ioctlsocket, select, recv, send and GetTickCount are represented only by their results. `closesocket` is not modelled at all: the source ignores its result, so only the handles passed to it are recorded. The arguments that only these calls consume are not parameters of the model: port and address strings, `backlog`, the listener and transfer socket handles.
- Poll.NetPollReadableSockets: the output set is stated as the candidate set handed to `select`. Which sockets `select` keeps in it is foreign and not modelled; the same holds for Poll.NetPollWritableSockets.
- `NetGetPeerAddress` (src/network.cpp:412-428) is getpeername and inet_ntop/inet_ntoa formatting, all foreign.
- Clock readings are unbounded naturals. The 32-bit `DWORD` wrap-around of `GetTickCount() + timeout` is not modelled, and the readings are not assumed monotone.
- The overflow of `timeout * 1000` and an out-of-range `tv_usec` for large read-poll timeouts are not modelled, because what `select` makes of them is foreign.
- Poll.NetPollReadableSockets: the output set must be a different `fd_set` from the master set. A call passing the exported master set itself as the output set is excluded; `select` would then overwrite the master set. The same holds for Poll.NetPollWritableSockets.
- Transfer.NetReadFromSocket: the loop has no bound of its own, so the model follows it only as far as the given steps go. If they run out first, it returns `None`: the call has not returned yet. The same holds for Transfer.NetSendToSocket.
- Transfer.Recv: the bytes of a `Delivered` step beyond the requested length are dropped. The next step's oracle states its own queue, so no leftover bytes carry over.
- A socket created before a later step fails (bind, listen, connect or ioctlsocket) is left open. The model does not track the OS's open sockets, only the registry. After an ioctlsocket failure the accepted handle is not even returned to the caller.
- `network.cpp` and `network.h` at the top level are an older copy of the same library. They are not part of this model: their read and send are single pass-through calls, and their cleanup repeats the indexing loop without `FD_CLR`.


## Behaviours a caller may not expect

- The read returns 0 both when the peer closes, even after bytes were read, and when it times out before any byte arrived. A caller cannot tell these apart (`ReadPeerClosedReturnsZero`, `ReadIdleBeforeAnyByteReturnsZero`).
- The write poll takes its timeout in microseconds, as its documentation says, while the read poll takes milliseconds (`PollTimeoutAsymmetry`).

## Findings

| source | as written | input that shows it | evidently intended | confidence | as-written member | corrected member |
|---|---|---|---|---|---|---|
| src/network.cpp:88-89 | The cleanup loop advances `i` after each `NetCloseSocket`. That call's `FD_CLR` shifts the remaining entries down and lowers `fd_count`, so the entry after each closed one is skipped. | Master set `[a, b]`: `a` is closed, the loop stops with `i == fd_count == 1`, and `b` stays open and registered. | Close every open socket (src/network.cpp:83-84) and leave the set empty. | high; not executed | `Registry.NetCleanupAsWritten` (with `Registry.CleanupAsWrittenStrandsSecond`) | `Registry.NetCleanup` |
