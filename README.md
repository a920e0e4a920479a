# Battle server client bookkeeping, in Dafny

This project models the client bookkeeping of a small text battle server
written in C (`battle.c`). The server keeps connected clients in a singly
linked list that works as a stack, with the newest client at the head. Each
record holds a socket descriptor, an IPv4 address, a display name, an
`in_match` flag and a pointer to the client's last opponent. When a connection
is accepted, the server does three things in order:

1. It pushes a record for the connection (`addclient`).
2. It logs the client in with its first message (`login_user`). The message
   is accepted only if it contains a line feed. The text before the first
   line feed becomes the head record's name, and that record's match state
   is reset.
3. It runs a matching loop. The loop pairs the new client with the first
   record in list order that is free, is a different client, and is not its
   last opponent in either direction.

Clients that disconnect are unlinked by descriptor (`removeclient`), and
records are looked up by descriptor (`findclient`).

The modules follow that structure:

- `ClientList` (client_list.dfy) holds the `Client` record. It defines the
  lookup (`IndexOf`) and the removal (`RemoveFirst`) as functions over a
  sequence whose index 0 is the list head, and proves their properties.
  A record's last opponent is stored as an optional descriptor, not a
  pointer.
- `Login` (login.dfy) covers the login message. The received bytes land in
  a 256-byte buffer and are NUL-terminated. `strstr` looks for a line feed
  only up to the first NUL, and `strcpy` copies up to the NUL. The module
  has the specification functions and the two scanning loops over the
  buffer.
- `Matchmaking` (matchmaking.dfy) covers the pairing rule, what pairing
  does to the list, and the properties of the matching loop: at most one
  pairing, the first eligible record, no rematch with the last opponent,
  and symmetric pairings.
- `Server` (server.dfy) holds the `Registry` class. Its `clients` field is
  the list, and its methods update it in place: add, remove, find, login,
  the matching loop, and the whole accept step. Each method is proved
  against the specification functions above. The module also has the
  lemmas about the accept step and the finding below.

## Model

| member | source | states |
|---|---|---|
| `ClientList.IndexOf` | battle.c:229-237 | the position of the first record whose descriptor is `fd`; no record before it has that descriptor; None exactly when no record has it |
| `ClientList.RemoveFirstSplice` | battle.c:277-294 | removal cuts out exactly the first record with the descriptor and keeps every other record in its order; with no such record the list is unchanged |
| `ClientList.RemoveFirst` | battle.c:280-288 | the list shrinks by one exactly when some record had the descriptor, and otherwise keeps its length |
| `ClientList.SpliceFds` | battle.c:284-288 | cutting one record out of a list with distinct descriptors keeps them distinct and loses exactly that record's descriptor |
| `ClientList.RemoveFirstFds` | battle.c:277-294 | with distinct descriptors, removal keeps them distinct and removes exactly that descriptor from the registered ones |
| `ClientList.RemoveFirstIdempotent` | battle.c:284-293 | with distinct descriptors, removing a descriptor twice leaves the same list as removing it once |
| `ClientList.PushThenRemove` | battle.c:260-294 | after a push, lookup of the pushed descriptor finds the head, and removing that descriptor restores the previous list |
| `ClientList.PushKeepsDistinct` | battle.c:269-273 | pushing a descriptor that no record holds keeps descriptors distinct |
| `Login.NewlineBeforeNul` | battle.c:203-206 | the first line feed before any NUL; no line feed or NUL precedes it; None exactly when every line feed comes after a NUL |
| `Login.LoginName` | battle.c:202-214 | a name exists exactly when a line feed occurs before any NUL; the name is the text before the first line feed, without line feed or NUL; a carriage return before it stays in the name |
| `Login.LoginOutcome` | battle.c:214-216 | a login changes only the head record and keeps every record's descriptor and address |
| `Login.CString` | battle.c:214 | the text before the first NUL: a prefix of the buffer containing no NUL, followed by a NUL when shorter than the buffer |
| `Login.CStringOfTerminated` | battle.c:208-214 | a NUL-terminated text reads back as itself whatever follows the NUL |
| `Login.NewlineBeforeNulOfTerminated` | battle.c:203-206 | the line feed search never looks past the terminating NUL |
| `Login.FindNewline` | battle.c:206 | the scan of the buffer returns the first line feed before its terminating NUL, or None |
| `Login.CopyCString` | battle.c:214 | the copy out of the buffer is exactly the C string it holds |
| `Login.LoginNameExamples` | battle.c:205-211 | "Alice\r\n" logs in as "Alice\r"; "\n" gives the empty name; "Bob" and a line feed after a NUL are refused |
| `Matchmaking.Pair` | battle.c:111-114 | both records are in a match and each names the other as last opponent; every record keeps its descriptor, address and name, and no other record changes |
| `Matchmaking.FirstPartner` | battle.c:105-107 | the first record in list order that passes the pairing test, or None when no record passes it |
| `Matchmaking.MatchOutcome` | battle.c:104-119 | matching keeps the list's length, order, descriptors, addresses and names |
| `Matchmaking.MatchSpec` | battle.c:105-117 | the list is unchanged exactly when no record is eligible; otherwise the first eligible record and the new client are both in a match, each is the other's last opponent, and no other record changes |
| `Matchmaking.MatchIdempotent` | battle.c:107-112 | running the matching loop again for the same client changes nothing, so at most one pairing happens |
| `Matchmaking.NoRematch` | battle.c:107 | a record that the new client last fought, or that last fought the new client, is left untouched |
| `Matchmaking.PairKeepsPairsSymmetric` | battle.c:111-114 | pairing two free records keeps every in-match record paired with a partner that names it back |
| `Matchmaking.MatchKeepsPairsSymmetric` | battle.c:104-119 | the matching loop keeps pairings symmetric |
| `Server.AcceptPairsWithFirstAvailable` | battle.c:97-119 | whatever its first message, a new client is in a match exactly when some record is available; it is paired with the first available record, which becomes its last opponent and names it back; every other record is unchanged |
| `Server.AcceptOutcome` | battle.c:97-119 | accepting a connection puts the new descriptor and address at the head, above the old records, each of which keeps its descriptor and address |
| `Server.AcceptKeepsPairsSymmetric` | battle.c:97-119 | accepting a connection on an unused descriptor keeps pairings symmetric |
| `Server.RemovalStrandsPartner` | battle.c:277-294 | for every list with distinct descriptors and every pair in it, removing one half of the pair leaves the other registered and in a match, with a last opponent nobody holds, so pairings stop being symmetric |
| `Server.BusyWithoutPartner` | battle.c:284-288 | a record in a match whose last opponent is no longer registered has no partner, so pairings are not symmetric |
| `Server.RemovalStrandsPartnerExample` | battle.c:277-294 | one example: when "Bob" on descriptor 4 is removed from a two-record list where "Al" and "Bob" fight each other, "Al" alone remains and pairings stop being symmetric |
| `Server.AddClientAsWritten` | battle.c:260-274 | as written: the new record, pushed above the unchanged old list, gets the given descriptor and address, and its name, match flag and last opponent are whatever the allocated memory held |
| `Server.AsWrittenAgreesAfterLogin` | battle.c:214-216 | after a successful login, the record pushed with uninitialised fields equals the one pushed with initialised fields |
| `Server.UninitialisedFieldsDecideMatch` | battle.c:260-274 | on a failed login, leftover memory in the new record decides whether the waiting client gets paired |
| `Server.Registry.constructor` | battle.c:48 | the server starts with an empty list |
| `Server.Registry.AddClient` | battle.c:260-274 | the new list is the new record followed by the old list, unchanged and in order |
| `Server.Registry.RemoveClient` | battle.c:277-294 | the list afterwards is the old list with the first record holding the descriptor unlinked and every other record kept in order; it is unchanged when no record holds it |
| `Server.Registry.FindClient` | battle.c:229-237 | the walk returns the first record with the descriptor, or none |
| `Server.Registry.LoginUser` | battle.c:200-217 | returns 0 exactly when the message has a line feed before any NUL; the head then takes the name before that line feed, is out of any match and has no last opponent; returns 1 and changes nothing otherwise |
| `Server.Registry.MatchNewClient` | battle.c:104-119 | the list afterwards is the old list with the matching rule applied: unchanged when no record is eligible, otherwise the new client and the first eligible record are paired and nothing else changes (see `Matchmaking.MatchSpec`) |
| `Server.Registry.Accept` | battle.c:97-119 | returns 0 exactly when the first message is accepted, else 1; the list afterwards is the old list with the new record pushed, logged in and matched (see `Server.AcceptPairsWithFirstAvailable`) |

## Findings

| source | as written | input that shows it | evidently intended | confidence | as-written member | corrected member |
|---|---|---|---|---|---|---|
| battle.c:260-274 | `addclient` sets only `fd`, `ipaddr` and `next`. The `malloc`ed record's `name`, `in_match` and `last_opponent` stay uninitialised. Only a successful login sets them, and `main` runs the matching loop even when the login fails. | One waiting client "Bob" on descriptor 4. A new client on descriptor 5 sends "Al" with no line feed, so `login_user` returns 1. The matching loop then reads the new record's indeterminate `in_match`. | A new record starts out of any match, with no last opponent and an empty name. | high; not executed | `Server.AddClientAsWritten`, `Server.UninitialisedFieldsDecideMatch` | `Server.Registry.AddClient` (via `ClientList.NewClient`), `Server.AcceptPairsWithFirstAvailable` |

The rest of the model uses the corrected record. `Server.AsWrittenAgreesAfterLogin`
shows the two versions agree whenever the login succeeds.

The model also keeps three behaviours of the code that a line-based chat
protocol might not be expected to have:
- Only a line feed ends a name. A carriage return stays in it, and CR
  alone does not end a line.
- An empty name is accepted.
- Removing a client does not clear its partner's match state
  (`Server.RemovalStrandsPartner`).

## Left out

- Socket setup, `select`, `accept`, the `fd_set` and `maxfd` bookkeeping,
  and `handleclient` are left out: they are operating system and network
  I/O. This covers battle.c:45-96, 99-100, 122-129, 131-138 and 143-195.
  The calls at battle.c:97-98 are modelled by `Server.Registry.Accept`, and
  the `removeclient` call at line 130 by `Server.Registry.RemoveClient`.
  - The matching loop's `FD_ISSET(p->fd, &allset)` test is not modelled. It
    holds for every registered record, because `main` adds a descriptor to
    `allset` before `addclient` and clears it right after `removeclient`.
- `broadcast` and every `write`, `read`, `printf`, `perror`, `sprintf` and
  `inet_ntoa` call are left out. The join announcement and the match
  announcement are not recorded.
- Received text is a sequence of Dafny characters, each standing for one
  received byte. `|received| < NameBufferSize` therefore counts bytes, as
  the `read` at battle.c:202 does. Only the line feed and the NUL are
  searched for, so multi-byte encodings are irrelevant.
- The received login message is a parameter of `LoginUser`, in place of the
  `read` at battle.c:202.
  - Only the `len > 0` path is modelled: `name[len] = '\0'` with
    `len == -1` is undefined.
  - The uninitialised `p` argument of `login_user` is read only on that
    path.
- Pointer identity is not modelled. A last opponent is a descriptor.
  - A removed client's descriptor reused by a later connection counts as
    the same opponent.
  - The C compares pointers, and those may or may not be reused by
    `malloc`.
- Freeing records, a dangling `last_opponent`, and the `exit(1)` after a
  failed `malloc` are not modelled.
- `Server.Registry.MatchNewClient` requires a record with the client's
  descriptor. The C code dereferences `findclient`'s result unchecked, and
  `main` calls it right after pushing that record.
- `ClientList.RemoveFirstIdempotent` and `ClientList.RemoveFirstFds` assume
  distinct descriptors, as the operating system guarantees for open
  sockets. With duplicates, a second removal removes the next duplicate.
- The commented-out `can_be_matched` and `move_to_end` (battle.c:239-258)
  are dead code.
- Combat is not part of this code: hitpoints, moves, turns and line framing
  are not implemented in battle.c.
