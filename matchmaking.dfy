/** The matching rule the server applies right after a client connects:
    walk the list from the head and pair the new client with the first
    record that is free, is someone else, and is not its last opponent in
    either direction. */
module Matchmaking {
  import opened ClientList

  /** The test the matching loop applies to each record `p`, where `me` is
      the new client's record. */
  predicate Eligible(me: Client, p: Client) {
    && !p.inMatch && !me.inMatch
    && me.lastOpponent != Some(p.fd) && p.lastOpponent != Some(me.fd)
    && p.fd != me.fd
  }

  /** The first record, in list order, that `me` may be paired with. */
  function FirstPartner(s: seq<Client>, me: Client): (r: Option<nat>)
    ensures r.Some? ==> r.value < |s| && Eligible(me, s[r.value])
    ensures r.Some? ==> forall j :: 0 <= j < r.value ==> !Eligible(me, s[j])
    ensures r.None? ==> forall j :: 0 <= j < |s| ==> !Eligible(me, s[j])
  {
    if s == [] then None
    else if Eligible(me, s[0]) then Some(0)
    else match FirstPartner(s[1..], me)
      case None =>
        assert forall j :: 1 <= j < |s| ==> s[j] == s[1..][j - 1];
        None
      case Some(k) => Some(k + 1)
  }

  /** Records `a` and `b` after they are paired: both in a match, each the
      other's last opponent. */
  function Pair(s: seq<Client>, a: nat, b: nat): (r: seq<Client>)
    requires a < |s| && b < |s| && a != b
    ensures |r| == |s| && r[a].inMatch && r[b].inMatch
    ensures r[a].lastOpponent == Some(r[b].fd) && r[b].lastOpponent == Some(r[a].fd)
    ensures forall j :: 0 <= j < |s| ==>
      r[j].fd == s[j].fd && r[j].addr == s[j].addr && r[j].name == s[j].name
    ensures forall j :: 0 <= j < |s| && j != a && j != b ==> r[j] == s[j]
  {
    s[a := s[a].(inMatch := true, lastOpponent := Some(s[b].fd))]
     [b := s[b].(inMatch := true, lastOpponent := Some(s[a].fd))]
  }

  /** The list after the matching loop has run for the client with
      descriptor `clientfd`. Matching never changes who is registered, in
      what order, or under which name. */
  function MatchOutcome(s: seq<Client>, clientfd: int): (r: seq<Client>)
    requires HasFd(s, clientfd)
    ensures |r| == |s|
    ensures forall j :: 0 <= j < |s| ==>
      r[j].fd == s[j].fd && r[j].addr == s[j].addr && r[j].name == s[j].name
  {
    var me := IndexOf(s, clientfd).value;
    match FirstPartner(s, s[me])
    case None => s
    case Some(k) => Pair(s, me, k)
  }

  /** What the matching loop does, stated without reference to how it is
      computed: the list is unchanged exactly when no record is eligible;
      otherwise the new client and the first eligible record are both put
      in a match as each other's last opponent, and no other record
      changes. */
  lemma MatchSpec(s: seq<Client>, clientfd: int)
    requires HasFd(s, clientfd)
    ensures var r := MatchOutcome(s, clientfd);
      var me := IndexOf(s, clientfd).value;
      (r == s <==> forall j :: 0 <= j < |s| ==> !Eligible(s[me], s[j]))
    ensures var r := MatchOutcome(s, clientfd);
      var me := IndexOf(s, clientfd).value;
      r != s ==> exists k :: (
        && 0 <= k < |s| && k != me
        && Eligible(s[me], s[k])
        && (forall j :: 0 <= j < k ==> !Eligible(s[me], s[j]))
        && r[me] == s[me].(inMatch := true, lastOpponent := Some(s[k].fd))
        && r[k] == s[k].(inMatch := true, lastOpponent := Some(clientfd))
        && (forall j :: 0 <= j < |s| && j != me && j != k ==> r[j] == s[j]))
  {
    var me := IndexOf(s, clientfd).value;
    match FirstPartner(s, s[me])
    case None =>
    case Some(k) =>
      var r := MatchOutcome(s, clientfd);
      assert r[me].inMatch != s[me].inMatch;
  }

  /** Running the matching loop a second time for the same client pairs no
      one else: at most one pairing ever results. */
  lemma MatchIdempotent(s: seq<Client>, clientfd: int)
    requires HasFd(s, clientfd)
    ensures HasFd(MatchOutcome(s, clientfd), clientfd)
    ensures MatchOutcome(MatchOutcome(s, clientfd), clientfd) == MatchOutcome(s, clientfd)
  {
    var r := MatchOutcome(s, clientfd);
    var me := IndexOf(s, clientfd).value;
    assert r[me].fd == clientfd;
    assert IndexOf(r, clientfd) == IndexOf(s, clientfd) by {
      assert forall j :: 0 <= j <= me ==> r[j].fd == s[j].fd;
    }
    match FirstPartner(s, s[me])
    case None =>
    case Some(k) =>
      assert r[me].inMatch;
      assert FirstPartner(r, r[me]).None?;
  }

  /** The anti-rematch rule: a record the new client last fought, or one
      that last fought the new client, is never touched by the matching
      loop. */
  lemma NoRematch(s: seq<Client>, clientfd: int, b: nat)
    requires HasFd(s, clientfd) && b < |s|
    requires
      var me := IndexOf(s, clientfd).value;
      s[me].lastOpponent == Some(s[b].fd) || s[b].lastOpponent == Some(clientfd)
    ensures b != IndexOf(s, clientfd).value ==> MatchOutcome(s, clientfd)[b] == s[b]
  {
  }

  /** Record `j` is the partner of record `i`: a different record, in a
      match, each naming the other as last opponent. */
  predicate PartnerAt(s: seq<Client>, i: nat, j: nat)
    requires i < |s| && j < |s|
  {
    j != i && s[j].inMatch &&
    s[i].lastOpponent == Some(s[j].fd) && s[j].lastOpponent == Some(s[i].fd)
  }

  /** Record `i` is in a match. */
  predicate Busy(s: seq<Client>, i: nat)
    requires i < |s|
  {
    s[i].inMatch
  }

  /** Every record in a match has a partner: pairings are symmetric. */
  predicate PairsSymmetric(s: seq<Client>) {
    forall i {:trigger Busy(s, i)} :: 0 <= i < |s| && Busy(s, i) ==>
      exists j :: 0 <= j < |s| && PartnerAt(s, i, j)
  }

  /** Pairing two free records keeps pairings symmetric. */
  lemma PairKeepsPairsSymmetric(s: seq<Client>, a: nat, b: nat)
    requires a < |s| && b < |s| && a != b
    requires !s[a].inMatch && !s[b].inMatch && PairsSymmetric(s)
    ensures PairsSymmetric(Pair(s, a, b))
  {
    var r := Pair(s, a, b);
    forall i | 0 <= i < |r| && Busy(r, i)
      ensures exists j :: 0 <= j < |r| && PartnerAt(r, i, j)
    {
      if i == a {
        assert PartnerAt(r, a, b);
      } else if i == b {
        assert PartnerAt(r, b, a);
      } else {
        assert r[i] == s[i] && Busy(s, i);
        var j :| 0 <= j < |s| && PartnerAt(s, i, j);
        assert j != a && j != b;
        assert PartnerAt(r, i, j);
      }
    }
  }

  /** The matching loop keeps pairings symmetric. */
  lemma MatchKeepsPairsSymmetric(s: seq<Client>, clientfd: int)
    requires HasFd(s, clientfd) && PairsSymmetric(s)
    ensures PairsSymmetric(MatchOutcome(s, clientfd))
  {
    var me := IndexOf(s, clientfd).value;
    match FirstPartner(s, s[me])
    case None =>
    case Some(k) => PairKeepsPairsSymmetric(s, me, k);
  }
}
