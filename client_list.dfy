/** The battle server's client records and the list that holds them.
    The server keeps its clients in a singly linked list used as a stack:
    the most recently accepted client is at the head. Here the list is a
    sequence whose index 0 is the head. */
module ClientList {

  datatype Option<T> = None | Some(value: T)

  /** An IPv4 address as `struct in_addr` stores it: 32 bits. */
  newtype IPv4Addr = x: int | 0 <= x < 0x1_0000_0000

  /** One `struct client`. The last opponent is named by its socket
      descriptor rather than by a pointer to its record. */
  datatype Client = Client(
    fd: int,
    addr: IPv4Addr,
    name: string,
    inMatch: bool,
    lastOpponent: Option<int>)

  /** The record a freshly accepted connection starts with: unnamed, not in
      a match, no last opponent. */
  function NewClient(fd: int, addr: IPv4Addr): Client {
    Client(fd, addr, "", false, None)
  }

  predicate HasFd(s: seq<Client>, fd: int) {
    exists i :: 0 <= i < |s| && s[i].fd == fd
  }

  /** No two records share a descriptor, as long as the operating system
      hands out each open descriptor once. */
  predicate DistinctFds(s: seq<Client>) {
    forall i, j :: 0 <= i < j < |s| ==> s[i].fd != s[j].fd
  }

  /** Position of the first record, in list order, with descriptor `fd`. */
  function IndexOf(s: seq<Client>, fd: int): (r: Option<nat>)
    ensures r.Some? ==> r.value < |s| && s[r.value].fd == fd
    ensures r.Some? ==> forall j :: 0 <= j < r.value ==> s[j].fd != fd
    ensures r.None? <==> !HasFd(s, fd)
  {
    if s == [] then None
    else if s[0].fd == fd then Some(0)
    else match IndexOf(s[1..], fd)
      case None =>
        assert forall i :: 1 <= i < |s| ==> s[i] == s[1..][i - 1];
        None
      case Some(i) => Some(i + 1)
  }

  /** The list after unlinking the first record with descriptor `fd`; the
      list itself when there is none. */
  function RemoveFirst(s: seq<Client>, fd: int): (r: seq<Client>)
    ensures |r| == if HasFd(s, fd) then |s| - 1 else |s|
  {
    if s == [] then []
    else if s[0].fd == fd then s[1..]
    else [s[0]] + RemoveFirst(s[1..], fd)
  }

  /** Removal cuts out exactly the first record with that descriptor and
      keeps every other record in its order; it changes nothing when no
      record has the descriptor. */
  lemma {:induction false} RemoveFirstSplice(s: seq<Client>, fd: int)
    ensures IndexOf(s, fd).None? ==> RemoveFirst(s, fd) == s
    ensures IndexOf(s, fd).Some? ==>
      var i := IndexOf(s, fd).value;
      RemoveFirst(s, fd) == s[..i] + s[i + 1..]
  {
    if s != [] && s[0].fd != fd {
      RemoveFirstSplice(s[1..], fd);
      match IndexOf(s[1..], fd)
      case None =>
      case Some(i) =>
        assert s[..i + 1] == [s[0]] + s[1..][..i];
        assert s[i + 2..] == s[1..][i + 1..];
    }
  }

  /** With distinct descriptors, removal keeps them distinct and removes
      exactly `fd` from the set of registered descriptors. */
  lemma {:induction false} RemoveFirstFds(s: seq<Client>, fd: int)
    requires DistinctFds(s)
    ensures DistinctFds(RemoveFirst(s, fd))
    ensures forall g :: HasFd(RemoveFirst(s, fd), g) <==> HasFd(s, g) && g != fd
  {
    RemoveFirstSplice(s, fd);
    match IndexOf(s, fd)
    case None =>
    case Some(i) => SpliceFds(s, i);
  }

  /** Cutting record `i` out of a list with distinct descriptors keeps them
      distinct and loses exactly that record's descriptor. */
  lemma SpliceFds(s: seq<Client>, i: nat)
    requires DistinctFds(s) && i < |s|
    ensures var r := s[..i] + s[i + 1..];
      DistinctFds(r) && forall g :: HasFd(r, g) <==> HasFd(s, g) && g != s[i].fd
  {
    var r := s[..i] + s[i + 1..];
    assert |r| == |s| - 1;
    assert forall j :: 0 <= j < |r| ==> r[j] == s[if j < i then j else j + 1];
    forall g
      ensures HasFd(r, g) <==> HasFd(s, g) && g != s[i].fd
    {
      if HasFd(s, g) && g != s[i].fd {
        var k :| 0 <= k < |s| && s[k].fd == g;
        assert r[if k < i then k else k - 1].fd == g;
      }
    }
  }

  /** Removing a descriptor twice leaves the same list as removing it once. */
  lemma RemoveFirstIdempotent(s: seq<Client>, fd: int)
    requires DistinctFds(s)
    ensures RemoveFirst(RemoveFirst(s, fd), fd) == RemoveFirst(s, fd)
  {
    RemoveFirstFds(s, fd);
    RemoveFirstSplice(RemoveFirst(s, fd), fd);
  }

  /** Pushing a record and then removing its descriptor restores the list;
      looking the descriptor up after the push finds the new head. */
  lemma PushThenRemove(s: seq<Client>, fd: int, addr: IPv4Addr)
    ensures IndexOf([NewClient(fd, addr)] + s, fd) == Some(0)
    ensures RemoveFirst([NewClient(fd, addr)] + s, fd) == s
  {
  }

  /** Pushing a descriptor nobody holds keeps the descriptors distinct. */
  lemma PushKeepsDistinct(s: seq<Client>, fd: int, addr: IPv4Addr)
    requires DistinctFds(s) && !HasFd(s, fd)
    ensures DistinctFds([NewClient(fd, addr)] + s)
  {
    var t := [NewClient(fd, addr)] + s;
    forall i, j | 0 <= i < j < |t|
      ensures t[i].fd != t[j].fd
    {
      assert t[j] == s[j - 1];
      if i > 0 { assert t[i] == s[i - 1]; }
    }
  }
}
