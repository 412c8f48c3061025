/** The Winsock `fd_set`: a fixed array of `FD_SETSIZE` handles of which the first
    `fd_count` are members. `FD_SET` appends a handle that is not yet present (and
    silently does nothing when the array is full); `FD_CLR` removes a handle by shifting
    every later entry one place down, so the members always fill a prefix of the array. */
module FdSets {
  import opened Winsock

  /** No handle occurs twice. */
  ghost predicate Distinct(s: seq<int>)
  {
    forall i, j :: 0 <= i < j < |s| ==> s[i] != s[j]
  }

  /** The members after `FD_SET(fd)`: unchanged if `fd` is present or the set is full,
      otherwise `fd` appended at the end. */
  function Inserted(s: seq<int>, fd: int): seq<int>
  {
    if fd in s || |s| >= FD_SETSIZE then s else s + [fd]
  }

  /** The members after `FD_CLR(fd)`: the first occurrence of `fd` taken out, the order of
      the others kept. */
  function Without(s: seq<int>, fd: int): seq<int>
  {
    if s == [] then []
    else if s[0] == fd then s[1..]
    else [s[0]] + Without(s[1..], fd)
  }

  /** FD_SET adds `fd` exactly when it was absent and there was room, and touches no
      other member; the set stays duplicate-free and within capacity. */
  lemma InsertedAddsOnlyFd(s: seq<int>, fd: int)
    requires Distinct(s) && |s| <= FD_SETSIZE
    ensures Distinct(Inserted(s, fd)) && |Inserted(s, fd)| <= FD_SETSIZE
    ensures fd in Inserted(s, fd) <==> fd in s || |s| < FD_SETSIZE
    ensures forall x :: x != fd ==> (x in Inserted(s, fd) <==> x in s)
    ensures s <= Inserted(s, fd)
  {
  }

  /** Removing a handle that is absent changes nothing. */
  lemma {:induction false} WithoutAbsent(s: seq<int>, fd: int)
    requires fd !in s
    ensures Without(s, fd) == s
  {
    if s != [] {
      WithoutAbsent(s[1..], fd);
    }
  }

  /** When the first occurrence of `fd` is at index `k`, FD_CLR closes the gap there. */
  lemma {:induction false} WithoutAt(s: seq<int>, fd: int, k: nat)
    requires k < |s| && s[k] == fd
    requires forall j :: 0 <= j < k ==> s[j] != fd
    ensures Without(s, fd) == s[..k] + s[k + 1..]
  {
    if k > 0 {
      WithoutAt(s[1..], fd, k - 1);
      assert s[1..][..k - 1] == s[1..k];
      assert s[1..][k..] == s[k + 1..];
      assert [s[0]] + s[1..k] == s[..k];
    }
  }

  /** On a duplicate-free set, FD_CLR removes exactly `fd`: every other member stays, the
      set stays duplicate-free and shrinks by one exactly when `fd` was a member. */
  lemma {:induction false} WithoutRemovesExactly(s: seq<int>, fd: int)
    requires Distinct(s)
    ensures Distinct(Without(s, fd))
    ensures forall x :: x in Without(s, fd) <==> x in s && x != fd
    ensures |Without(s, fd)| == if fd in s then |s| - 1 else |s|
  {
    if s != [] {
      assert Distinct(s[1..]) by {
        forall i, j | 0 <= i < j < |s[1..]| ensures s[1..][i] != s[1..][j] {
          assert s[1..][i] == s[i + 1] && s[1..][j] == s[j + 1];
        }
      }
      WithoutRemovesExactly(s[1..], fd);
      if s[0] == fd {
        assert s[0] !in s[1..] by {
          forall j | 0 <= j < |s[1..]| ensures s[1..][j] != s[0] {
            assert s[1..][j] == s[j + 1];
          }
        }
      } else {
        var r := Without(s[1..], fd);
        assert s[0] !in r by {
          forall j | 0 <= j < |s[1..]| ensures s[1..][j] != s[0] {
            assert s[1..][j] == s[j + 1];
          }
        }
        assert Without(s, fd) == [s[0]] + r;
        forall i, j | 0 <= i < j < |[s[0]] + r| ensures ([s[0]] + r)[i] != ([s[0]] + r)[j] {
          if i > 0 {
            assert ([s[0]] + r)[i] == r[i - 1] && ([s[0]] + r)[j] == r[j - 1];
          } else {
            assert ([s[0]] + r)[j] == r[j - 1];
          }
        }
      }
    }
  }

  /** An `fd_set`. */
  class SocketSet {
    var fdArray: array<int>
    var fdCount: nat

    ghost predicate Valid()
      reads this, fdArray
    {
      fdArray.Length == FD_SETSIZE && fdCount <= FD_SETSIZE && Distinct(fdArray[..fdCount])
    }

    /** The members, in the order they occupy `fd_array`. */
    function Members(): (m: seq<int>)
      reads this, fdArray
      requires Valid()
      ensures |m| == fdCount && Distinct(m)
    {
      fdArray[..fdCount]
    }

    /** A zero-initialised `fd_set` (the global master set starts this way): no members. */
    constructor ()
      ensures Valid() && fresh(fdArray) && Members() == []
    {
      fdArray := new int[FD_SETSIZE];
      fdCount := 0;
    }

    /** `FD_SET(fd, set)`. */
    method Insert(fd: int)
      requires Valid()
      modifies this, fdArray
      ensures Valid() && fdArray == old(fdArray)
      ensures Members() == Inserted(old(Members()), fd)
    {
      var i := IndexOf(fd);
      if i == fdCount && fdCount < FD_SETSIZE {
        fdArray[i] := fd;
        fdCount := fdCount + 1;
        assert Members() == old(Members()) + [fd];
      } else if i < fdCount {
        assert fd in old(Members()) by { assert old(Members())[i] == fd; }
      }
      InsertedAddsOnlyFd(old(Members()), fd);
    }

    /** The position of `fd` among the members, or `fdCount` when it is not one. */
    method IndexOf(fd: int) returns (i: nat)
      requires Valid()
      ensures i <= fdCount
      ensures i < fdCount ==> fdArray[i] == fd
      ensures forall k :: 0 <= k < i ==> fdArray[k] != fd
    {
      i := 0;
      while i < fdCount && fdArray[i] != fd
        invariant 0 <= i <= fdCount
        invariant forall k :: 0 <= k < i ==> fdArray[k] != fd
      {
        i := i + 1;
      }
    }

    /** Shifts every member after position `pos` one place down. */
    method CloseGap(pos: nat)
      requires Valid() && pos < fdCount
      modifies fdArray
      ensures fdArray[..fdCount - 1] == old(fdArray[..pos]) + old(fdArray[pos + 1..fdCount])
    {
      ghost var before := fdArray[..fdCount];
      var i := pos;
      while i < fdCount - 1
        invariant pos <= i < fdCount
        invariant forall k :: 0 <= k < pos ==> fdArray[k] == before[k]
        invariant forall k :: pos <= k < i ==> fdArray[k] == before[k + 1]
        invariant forall k :: i < k < fdCount ==> fdArray[k] == before[k]
      {
        fdArray[i] := fdArray[i + 1];
        i := i + 1;
      }
      assert fdArray[..fdCount - 1] == before[..pos] + before[pos + 1..];
    }

    /** `FD_CLR(fd, set)`: find `fd`, then shift every later entry one place down. */
    method Remove(fd: int)
      requires Valid()
      modifies this, fdArray
      ensures Valid() && fdArray == old(fdArray)
      ensures Members() == Without(old(Members()), fd)
    {
      ghost var before := Members();
      WithoutRemovesExactly(before, fd);
      var i := IndexOf(fd);
      if i < fdCount {
        WithoutAt(before, fd, i);
        CloseGap(i);
        fdCount := fdCount - 1;
        assert Members() == Without(before, fd);
      } else {
        assert fd !in before;
        WithoutAbsent(before, fd);
      }
    }

    /** Struct assignment `*dst = src`: this set becomes a copy of `src`, which is left
        as it was. */
    method CopyFrom(src: SocketSet)
      requires Valid() && src.Valid() && src.fdArray != fdArray
      modifies this, fdArray
      ensures Valid() && fdArray == old(fdArray)
      ensures Members() == src.Members()
    {
      forall k | 0 <= k < FD_SETSIZE {
        fdArray[k] := src.fdArray[k];
      }
      fdCount := src.fdCount;
      assert Members() == src.fdArray[..src.fdCount];
    }
  }
}
