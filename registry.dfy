/** The open-socket registry: the library's master `fd_set`, which the opening functions
    add to on success, `NetCloseSocket` removes from, and `NetCleanup` drains. The
    process-wide global of the library is passed here explicitly as `master`. */
module Registry {
  import opened Winsock
  import opened FdSets

  /** The handles at even positions of `s` (0, 2, 4, ...). */
  function EvenPositions(s: seq<int>): (r: seq<int>)
    ensures |r| == (|s| + 1) / 2
    ensures forall k :: 0 <= k < |r| ==> r[k] == s[2 * k]
  {
    seq((|s| + 1) / 2, k requires 0 <= k < (|s| + 1) / 2 => s[2 * k])
  }

  /** The handles at odd positions of `s` (1, 3, 5, ...). */
  function OddPositions(s: seq<int>): (r: seq<int>)
    ensures |r| == |s| / 2
    ensures forall k :: 0 <= k < |r| ==> r[k] == s[2 * k + 1]
  {
    seq(|s| / 2, k requires 0 <= k < |s| / 2 => s[2 * k + 1])
  }

  /** Removing the member at index `k` of a duplicate-free set closes the gap there. */
  lemma WithoutMemberAt(s: seq<int>, k: nat)
    requires Distinct(s) && k < |s|
    ensures Without(s, s[k]) == s[..k] + s[k + 1..]
  {
    WithoutAt(s, s[k], k);
  }

  /** `NetOpenListenerSocket`: resolve the local address, create a socket, bind it, listen
      on it, and only then add it to the master set. `slot` is what `*pSocket` held
      before the call; `socket` is what it holds afterwards. */
  method NetOpenListenerSocket(master: SocketSet, slot: int,
                               resolve: OsCall, create: SocketCall, bind: OsCall, listen: OsCall)
    returns (status: int, socket: int)
    requires master.Valid()
    modifies master, master.fdArray
    ensures master.Valid() && master.fdArray == old(master.fdArray)
    ensures status == 0 <==> resolve.Done? && create.Created? && bind.Done? && listen.Done?
    ensures status == 0 ==> socket == create.handle
    ensures status == 0 ==> master.Members() == Inserted(old(master.Members()), socket)
    ensures status != 0 ==> master.Members() == old(master.Members())
    ensures resolve.Failed? ==> status == resolve.code && socket == slot
    ensures resolve.Done? && create.CreateFailed? ==> status == create.code && socket == INVALID_SOCKET
    ensures resolve.Done? && create.Created? ==> socket == create.handle
    ensures resolve.Done? && create.Created? && bind.Failed? ==> status == bind.code
    ensures resolve.Done? && create.Created? && bind.Done? && listen.Failed? ==> status == listen.code
  {
    socket := slot;
    if resolve.Failed? {
      return resolve.code, socket;
    }
    socket := if create.Created? then create.handle else INVALID_SOCKET;
    if socket == INVALID_SOCKET {
      return create.code, socket;
    }
    if bind.Failed? {
      return bind.code, socket;
    }
    if listen.Failed? {
      return listen.code, socket;
    }
    master.Insert(socket);
    status := 0;
  }

  /** `NetOpenConnectingSocket`: resolve the server address, create a socket, connect
      it, and only then add it to the master set. */
  method NetOpenConnectingSocket(master: SocketSet, slot: int,
                                 resolve: OsCall, create: SocketCall, connect: OsCall)
    returns (status: int, socket: int)
    requires master.Valid()
    modifies master, master.fdArray
    ensures master.Valid() && master.fdArray == old(master.fdArray)
    ensures status == 0 <==> resolve.Done? && create.Created? && connect.Done?
    ensures status == 0 ==> socket == create.handle
    ensures status == 0 ==> master.Members() == Inserted(old(master.Members()), socket)
    ensures status != 0 ==> master.Members() == old(master.Members())
    ensures resolve.Failed? ==> status == resolve.code && socket == slot
    ensures resolve.Done? && create.CreateFailed? ==> status == create.code && socket == INVALID_SOCKET
    ensures resolve.Done? && create.Created? ==> socket == create.handle
    ensures resolve.Done? && create.Created? && connect.Failed? ==> status == connect.code
  {
    socket := slot;
    if resolve.Failed? {
      return resolve.code, socket;
    }
    socket := if create.Created? then create.handle else INVALID_SOCKET;
    if socket == INVALID_SOCKET {
      return create.code, socket;
    }
    if connect.Failed? {
      return connect.code, socket;
    }
    master.Insert(socket);
    status := 0;
  }

  /** `NetOpenClientSocket`: accept a pending connection, switch the new socket to
      non-blocking mode, and only then add it to the master set. `wantsHandle` is
      `pClientSocket != NULL` (false by default, as in the header); `client` is the handle
      written through it, if any. */
  method NetOpenClientSocket(master: SocketSet, accept: SocketCall, nonBlocking: OsCall, wantsHandle: bool := false)
    returns (status: int, client: Option<Handle>)
    requires master.Valid()
    modifies master, master.fdArray
    ensures master.Valid() && master.fdArray == old(master.fdArray)
    ensures status == 0 <==> accept.Created? && nonBlocking.Done?
    ensures accept.CreateFailed? ==> status == accept.code
    ensures accept.Created? && nonBlocking.Failed? ==> status == nonBlocking.code
    ensures status == 0 ==> master.Members() == Inserted(old(master.Members()), accept.handle)
    ensures status != 0 ==> master.Members() == old(master.Members())
    ensures client == if status == 0 && wantsHandle then Some(accept.handle) else None
  {
    client := None;
    var newSocket := if accept.Created? then accept.handle else SOCKET_ERROR;
    if newSocket == SOCKET_ERROR {
      return accept.code, client;
    }
    if nonBlocking.Failed? {
      return nonBlocking.code, client;
    }
    master.Insert(newSocket);
    if wantsHandle {
      client := Some(newSocket);
    }
    status := 0;
  }

  /** `NetCloseSocket`: close the socket (a foreign call) and clear it from the master
      set. Exactly that handle leaves; every other member stays, in its order. */
  method NetCloseSocket(master: SocketSet, socket: int)
    requires master.Valid()
    modifies master, master.fdArray
    ensures master.Valid() && master.fdArray == old(master.fdArray)
    ensures master.Members() == Without(old(master.Members()), socket)
    ensures forall x :: x in master.Members() <==> x in old(master.Members()) && x != socket
  {
    master.Remove(socket);
    WithoutRemovesExactly(old(master.Members()), socket);
  }

  /** After `i` passes of the cleanup as written over the original members `o`, the
      members `m` are the first `i` odd-position handles of `o` followed by the handles
      of `o` from position `2 * i` on. */
  ghost predicate CleanupShape(o: seq<int>, m: seq<int>, i: nat)
  {
    && i <= |o| && 2 * i <= |o| + 1 && |m| == |o| - i
    && (forall k :: 0 <= k < i && k < |m| ==> m[k] == o[2 * k + 1])
    && (forall k :: i <= k < |m| ==> m[k] == o[k + i])
  }

  /** One pass: the handle at position `i` is `o[2 * i]`, and closing it gives the
      shape for `i + 1`. */
  lemma CleanupStep(o: seq<int>, m: seq<int>, i: nat)
    requires CleanupShape(o, m, i) && i < |m|
    ensures m[i] == o[2 * i]
    ensures CleanupShape(o, m[..i] + m[i + 1..], i + 1)
  {
  }

  /** When the index has caught up with the shrinking count, only the odd-position
      handles remain. */
  lemma CleanupShapeDone(o: seq<int>, m: seq<int>, i: nat)
    requires CleanupShape(o, m, i) && i >= |m|
    ensures m == OddPositions(o)
  {
  }

  /** `NetCleanup` as written: the index `i` advances after every close, but each close
      shifts the remaining members one place down, so every other member is skipped.
      `closed` lists the handles passed to `NetCloseSocket`, in order. */
  method NetCleanupAsWritten(master: SocketSet) returns (closed: seq<int>)
    requires master.Valid()
    modifies master, master.fdArray
    ensures master.Valid() && master.fdArray == old(master.fdArray)
    ensures closed == EvenPositions(old(master.Members()))
    ensures master.Members() == OddPositions(old(master.Members()))
  {
    ghost var o := master.Members();
    closed := [];
    var i: nat := 0;
    while i < master.fdCount
      invariant master.Valid() && master.fdArray == old(master.fdArray)
      invariant CleanupShape(o, master.Members(), i)
      invariant |closed| == i && forall k :: 0 <= k < i ==> closed[k] == o[2 * k]
      decreases master.fdCount - i
    {
      ghost var m := master.Members();
      var fd := master.fdArray[i];
      CleanupStep(o, m, i);
      WithoutMemberAt(m, i);
      NetCloseSocket(master, fd);
      closed := closed + [fd];
      i := i + 1;
    }
    CleanupShapeDone(o, master.Members(), i);
    assert closed == EvenPositions(o);
  }

  /** A registry of two sockets keeps its second one after the cleanup as written: the
      socket is neither closed nor unregistered. */
  lemma CleanupAsWrittenStrandsSecond(a: int, b: int)
    ensures EvenPositions([a, b]) == [a]
    ensures OddPositions([a, b]) == [b]
  {
  }

  /** Whenever two or more sockets are registered, the cleanup as written leaves the
      sockets at odd positions registered and never hands them to `closesocket`. */
  lemma CleanupAsWrittenStrandsOddPositions(s: seq<int>)
    requires Distinct(s) && |s| >= 2
    ensures OddPositions(s) != []
    ensures forall x :: x in OddPositions(s) ==> x in s && x !in EvenPositions(s)
  {
  }

  /** `NetCleanup` as its documentation promises: close every open socket. Draining from
      the front of the set closes every member, in order, and empties the registry. */
  method NetCleanup(master: SocketSet) returns (closed: seq<int>)
    requires master.Valid()
    modifies master, master.fdArray
    ensures master.Valid() && master.fdArray == old(master.fdArray)
    ensures closed == old(master.Members())
    ensures master.Members() == []
  {
    ghost var o := master.Members();
    closed := [];
    while master.fdCount > 0
      invariant master.Valid() && master.fdArray == old(master.fdArray)
      invariant closed + master.Members() == o
      decreases master.fdCount
    {
      ghost var m := master.Members();
      var fd := master.fdArray[0];
      assert m == [fd] + m[1..];
      WithoutMemberAt(m, 0);
      NetCloseSocket(master, fd);
      assert (closed + [fd]) + m[1..] == closed + m;
      closed := closed + [fd];
    }
  }
}
