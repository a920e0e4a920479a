/** The battle server's registry of connected clients and the bookkeeping
    done when a connection is accepted: push a record, log the client in
    with its first message, then try to pair it with a waiting client. */
module Server {
  import opened ClientList
  import opened Login
  import opened Matchmaking

  /** The list after a connection with descriptor `fd` from `addr` is
      accepted and its first message is `received`. */
  function AcceptOutcome(s: seq<Client>, fd: int, addr: IPv4Addr, received: seq<char>): (r: seq<Client>)
    ensures |r| == |s| + 1 && r[0].fd == fd && r[0].addr == addr
    ensures forall j :: 0 <= j < |s| ==> r[j + 1].fd == s[j].fd && r[j + 1].addr == s[j].addr
  {
    var t := LoginOutcome([NewClient(fd, addr)] + s, received);
    assert t[0].fd == fd;
    MatchOutcome(t, fd)
  }

  /** A waiting record the new client with descriptor `fd` may be paired
      with: free, someone else, and not having fought `fd` last. */
  predicate Available(p: Client, fd: int) {
    !p.inMatch && p.fd != fd && p.lastOpponent != Some(fd)
  }

  /** Whatever its first message, a newly accepted client is paired with
      the first available record if there is one, and with no one
      otherwise; the records behind it change only by that pairing. */
  lemma AcceptPairsWithFirstAvailable(s: seq<Client>, fd: int, addr: IPv4Addr, received: seq<char>)
    ensures var r := AcceptOutcome(s, fd, addr, received);
      |r| == |s| + 1 && r[0].fd == fd && r[0].addr == addr &&
      (r[0].inMatch <==> exists j :: 0 <= j < |s| && Available(s[j], fd))
    ensures var r := AcceptOutcome(s, fd, addr, received);
      forall k :: (
        && 0 <= k < |s| && Available(s[k], fd)
        && (forall j :: 0 <= j < k ==> !Available(s[j], fd))
      ) ==> (
        && r[0].lastOpponent == Some(s[k].fd)
        && r[k + 1] == s[k].(inMatch := true, lastOpponent := Some(fd))
        && forall j :: 0 <= j < |s| && j != k ==> r[j + 1] == s[j])
    ensures var r := AcceptOutcome(s, fd, addr, received);
      (forall j :: 0 <= j < |s| ==> !Available(s[j], fd)) ==> r[1..] == s
  {
    var t := LoginOutcome([NewClient(fd, addr)] + s, received);
    assert t[0].fd == fd && !t[0].inMatch && t[0].lastOpponent == None;
    assert IndexOf(t, fd) == Some(0);
    assert forall j :: 1 <= j < |t| ==> t[j] == s[j - 1];
    assert forall j :: 0 <= j < |t| ==> (Eligible(t[0], t[j]) <==> j > 0 && Available(s[j - 1], fd));
    match FirstPartner(t, t[0])
    case None =>
    case Some(k) =>
      assert Available(s[k - 1], fd);
      forall k' | 0 <= k' < |s| && Available(s[k'], fd) && (forall j :: 0 <= j < k' ==> !Available(s[j], fd))
        ensures k' == k - 1
      {
        assert !Eligible(t[0], t[k' + 1]) || k' + 1 >= k;
      }
  }

  /** Accepting a connection keeps pairings symmetric. */
  lemma AcceptKeepsPairsSymmetric(s: seq<Client>, fd: int, addr: IPv4Addr, received: seq<char>)
    requires PairsSymmetric(s) && !HasFd(s, fd)
    ensures PairsSymmetric(AcceptOutcome(s, fd, addr, received))
  {
    var t := LoginOutcome([NewClient(fd, addr)] + s, received);
    assert forall j :: 1 <= j < |t| ==> t[j] == s[j - 1];
    forall i | 0 <= i < |t| && Busy(t, i)
      ensures exists j :: 0 <= j < |t| && PartnerAt(t, i, j)
    {
      assert i > 0 && Busy(s, i - 1);
      var j :| 0 <= j < |s| && PartnerAt(s, i - 1, j);
      assert PartnerAt(t, i, j + 1);
    }
    assert t[0].fd == fd;
    MatchKeepsPairsSymmetric(t, fd);
  }

  /** Removing a client does not release its partner: when record `j` is
      the partner of record `i` and `j`'s descriptor is removed, `i` stays
      in the list, still in a match, naming a last opponent that no record
      holds any more, so pairings are no longer symmetric and `i` is never
      matched again. */
  lemma RemovalStrandsPartner(s: seq<Client>, i: nat, j: nat)
    requires DistinctFds(s) && i < |s| && j < |s|
    requires s[i].inMatch && PartnerAt(s, i, j)
    ensures var r := RemoveFirst(s, s[j].fd);
      !HasFd(r, s[j].fd) && s[i] in r && !PairsSymmetric(r)
  {
    var fd := s[j].fd;
    RemoveFirstFds(s, fd);
    RemoveFirstSplice(s, fd);
    assert IndexOf(s, fd) == Some(j);
    var r := RemoveFirst(s, fd);
    assert r == s[..j] + s[j + 1..];
    var k := if i < j then i else i - 1;
    assert r[k] == s[i] by {
      if i < j { assert r[k] == s[..j][i]; } else { assert r[k] == s[j + 1..][i - j - 1]; }
    }
    BusyWithoutPartner(r, k, fd);
  }

  /** A record in a match whose last opponent is not registered has no
      partner, so pairings are not symmetric. */
  lemma BusyWithoutPartner(r: seq<Client>, k: nat, fd: int)
    requires k < |r| && r[k].inMatch && r[k].lastOpponent == Some(fd) && !HasFd(r, fd)
    ensures !PairsSymmetric(r)
  {
    assert Busy(r, k);
    forall m | 0 <= m < |r|
      ensures !PartnerAt(r, k, m)
    {
      assert r[m].fd != fd;
    }
  }

  /** The two-record case: "Al" on descriptor 5 and "Bob" on descriptor 4
      fight each other; once Bob's connection is removed, Al is stranded. */
  lemma RemovalStrandsPartnerExample()
    ensures var s := [Client(5, 2, "Al", true, Some(4)), Client(4, 1, "Bob", true, Some(5))];
      PairsSymmetric(s) && RemoveFirst(s, 4) == [s[0]] && !PairsSymmetric(RemoveFirst(s, 4))
  {
    var s := [Client(5, 2, "Al", true, Some(4)), Client(4, 1, "Bob", true, Some(5))];
    assert PartnerAt(s, 0, 1) && PartnerAt(s, 1, 0);
    RemovalStrandsPartner(s, 0, 1);
  }

  /** The model of `addclient` as written: only the descriptor and the
      address of the new record are set, so its name, match flag and last
      opponent are whatever the allocated memory held (`residue`). */
  function AddClientAsWritten(s: seq<Client>, fd: int, addr: IPv4Addr, residue: Client): (r: seq<Client>)
    ensures |r| == |s| + 1 && r[1..] == s && r[0].fd == fd && r[0].addr == addr
    ensures r[0].name == residue.name && r[0].inMatch == residue.inMatch
    ensures r[0].lastOpponent == residue.lastOpponent
  {
    [residue.(fd := fd, addr := addr)] + s
  }

  /** A successful login overwrites every field `addclient` leaves unset,
      so the two versions agree whenever the first message holds a line
      feed. */
  lemma AsWrittenAgreesAfterLogin(s: seq<Client>, fd: int, addr: IPv4Addr, residue: Client, received: seq<char>)
    requires LoginName(received).Some?
    ensures LoginOutcome(AddClientAsWritten(s, fd, addr, residue), received)
         == LoginOutcome([NewClient(fd, addr)] + s, received)
  {
  }

  /** On a failed login the leftover memory decides the match: with one
      waiting client "Bob" on descriptor 4, a new client on descriptor 5
      that sends "Al" without a line feed is paired with Bob when the
      allocated memory says "not in a match", and with no one when it says
      "in a match". */
  lemma UninitialisedFieldsDecideMatch()
    ensures var s := [Client(4, 1, "Bob", false, None)];
      var idle := Client(0, 0, "", false, None);
      var busy := Client(0, 0, "", true, None);
      var r1 := LoginOutcome(AddClientAsWritten(s, 5, 2, idle), "Al");
      var r2 := LoginOutcome(AddClientAsWritten(s, 5, 2, busy), "Al");
      HasFd(r1, 5) && HasFd(r2, 5) &&
      MatchOutcome(r1, 5)[1].inMatch && !MatchOutcome(r2, 5)[1].inMatch
  {
    assert LoginName("Al") == None by {
      assert forall i :: 0 <= i < 2 ==> "Al"[i] != '\n';
    }
    var s := [Client(4, 1, "Bob", false, None)];
    var r1 := AddClientAsWritten(s, 5, 2, Client(0, 0, "", false, None));
    var r2 := AddClientAsWritten(s, 5, 2, Client(0, 0, "", true, None));
    assert r1[0].fd == 5 && r2[0].fd == 5;
    assert IndexOf(r1, 5) == Some(0) && IndexOf(r2, 5) == Some(0);
    assert Eligible(r1[0], r1[1]);
  }

  /** The connected clients, head first. */
  class Registry {
    var clients: seq<Client>

    /** The server starts with an empty list. */
    constructor ()
      ensures clients == []
    {
      clients := [];
    }

    /** `addclient`: push a record for a new connection at the head. */
    method AddClient(fd: int, addr: IPv4Addr)
      modifies this
      ensures clients == [NewClient(fd, addr)] + old(clients)
    {
      clients := [NewClient(fd, addr)] + clients;
    }

    /** `removeclient`: walk to the first record with descriptor `fd` and
      unlink it; report nothing and change nothing when there is none. */
    method RemoveClient(fd: int)
      modifies this
      ensures clients == RemoveFirst(old(clients), fd)
    {
      var i := 0;
      while i < |clients| && clients[i].fd != fd
        invariant 0 <= i <= |clients|
        invariant forall j :: 0 <= j < i ==> clients[j].fd != fd
      {
        i := i + 1;
      }
      RemoveFirstSplice(clients, fd);
      if i < |clients| {
        clients := clients[..i] + clients[i + 1..];
      }
    }

    /** `findclient`: the first record with descriptor `fd`, by position. */
    method FindClient(fd: int) returns (r: Option<nat>)
      ensures r == IndexOf(clients, fd)
    {
      var i := 0;
      while i < |clients|
        invariant 0 <= i <= |clients|
        invariant forall j :: 0 <= j < i ==> clients[j].fd != fd
      {
        if clients[i].fd == fd {
          return Some(i);
        }
        i := i + 1;
      }
      r := None;
    }

    /** The name-handling part of `login_user`: copy the first message into
      the 256-byte buffer, terminate it, cut it at the first line feed and
      store it as the head record's name, resetting the head's match state.
      Returns 0 on success and 1 when the message holds no line feed. */
    method LoginUser(received: seq<char>) returns (rc: int)
      requires 0 < |received| < NameBufferSize
      requires clients != []
      modifies this
      ensures rc == (if LoginName(received).Some? then 0 else 1)
      ensures clients == LoginOutcome(old(clients), received)
    {
      var name := new char[NameBufferSize];
      forall i | 0 <= i < |received| {
        name[i] := received[i];
      }
      name[|received|] := '\0';
      assert name[..] == received + ['\0'] + name[|received| + 1..];
      NewlineBeforeNulOfTerminated(received, name[|received| + 1..]);
      var end := FindNewline(name);
      if end.None? {
        return 1;
      }
      var e := end.value;
      name[e] := '\0';
      assert name[..] == received[..e] + ['\0'] + name[e + 1..];
      CStringOfTerminated(received[..e], name[e + 1..]);
      var text := CopyCString(name);
      clients := clients[0 := clients[0].(name := text, inMatch := false, lastOpponent := None)];
      rc := 0;
    }

    /** The matching loop run after a connection is accepted: walk the list
      from the head and pair the client on `clientfd` with the first
      eligible record. Once paired the client is in a match, so no further
      record qualifies. */
    method MatchNewClient(clientfd: int)
      requires HasFd(clients, clientfd)
      modifies this
      ensures clients == MatchOutcome(old(clients), clientfd)
    {
      var found := FindClient(clientfd);
      var me := found.value;
      ghost var s := clients;
      ghost var partner: Option<nat> := None;
      var i := 0;
      while i < |clients|
        invariant 0 <= i <= |clients| == |s|
        invariant partner.None? ==>
          clients == s && forall j :: 0 <= j < i ==> !Eligible(s[me], s[j])
        invariant partner.Some? ==>
          partner.value < i && partner.value != me && Eligible(s[me], s[partner.value]) &&
          (forall j :: 0 <= j < partner.value ==> !Eligible(s[me], s[j])) &&
          clients == Pair(s, me, partner.value)
      {
        if Eligible(clients[me], clients[i]) {
          clients := clients[me := clients[me].(inMatch := true)];
          clients := clients[i := clients[i].(inMatch := true)];
          clients := clients[me := clients[me].(lastOpponent := Some(clients[i].fd))];
          clients := clients[i := clients[i].(lastOpponent := Some(clients[me].fd))];
          partner := Some(i);
        }
        i := i + 1;
      }
    }

    /** The accept branch of the server loop: register the connection, log
      it in with its first message, then run the matching loop for it.
      Returns what `login_user` returned. */
    method Accept(clientfd: int, addr: IPv4Addr, received: seq<char>) returns (rc: int)
      requires 0 < |received| < NameBufferSize
      modifies this
      ensures rc == (if LoginName(received).Some? then 0 else 1)
      ensures clients == AcceptOutcome(old(clients), clientfd, addr, received)
    {
      AddClient(clientfd, addr);
      rc := LoginUser(received);
      assert clients[0].fd == clientfd;
      MatchNewClient(clientfd);
    }
  }
}
