/** Login name extraction. The server reads at most 255 bytes of the new
    client's first message into a 256-byte buffer, terminates it with NUL,
    and accepts it only if a line feed occurs in the resulting C string;
    the name is the text before that first line feed. */
module Login {
  import opened ClientList

  /** Size of the `name` buffer of a client record and of the receive buffer. */
  const NameBufferSize := 256

  /** Position of the first line feed in `s` that comes before any NUL:
      where `strstr(s, "\n")` finds its match in the C string `s`. */
  function NewlineBeforeNul(s: seq<char>): (r: Option<nat>)
    ensures r.Some? ==>
      r.value < |s| && s[r.value] == '\n' && '\n' !in s[..r.value] && '\0' !in s[..r.value]
    ensures r.None? ==> forall i :: 0 <= i < |s| && s[i] == '\n' ==> '\0' in s[..i]
  {
    if s == [] then None
    else if s[0] == '\0' then
      assert forall i :: 0 < i <= |s| ==> s[..i][0] == '\0';
      None
    else if s[0] == '\n' then Some(0)
    else match NewlineBeforeNul(s[1..])
      case None =>
        assert forall i :: 0 < i <= |s| ==> s[..i] == [s[0]] + s[1..][..i - 1];
        None
      case Some(k) =>
        assert s[..k + 1] == [s[0]] + s[1..][..k];
        Some(k + 1)
  }

  /** The name a received message logs in with, or None when the message
      is refused. The C string ends at the first NUL, and only a line feed
      ends the name: a carriage return before it stays in the name. */
  function LoginName(received: seq<char>): (r: Option<string>)
    ensures r.Some? <==>
      exists i :: 0 <= i < |received| && received[i] == '\n' && '\0' !in received[..i]
    ensures r.Some? ==>
      |r.value| < |received| && received[..|r.value|] == r.value &&
      received[|r.value|] == '\n' && '\n' !in r.value && '\0' !in r.value
  {
    match NewlineBeforeNul(received)
    case None => None
    case Some(k) => Some(received[..k])
  }

  /** The head record after a login attempt with `received`: on success the
      name is stored and the match state is reset; on failure nothing
      changes. */
  function LoginOutcome(s: seq<Client>, received: seq<char>): (r: seq<Client>)
    requires s != []
    ensures |r| == |s| && r[1..] == s[1..]
    ensures forall j :: 0 <= j < |s| ==> r[j].fd == s[j].fd && r[j].addr == s[j].addr
  {
    match LoginName(received)
    case None => s
    case Some(n) => s[0 := s[0].(name := n, inMatch := false, lastOpponent := None)]
  }

  /** The C string held in `s`: everything before the first NUL. */
  function CString(s: seq<char>): (r: seq<char>)
    ensures |r| <= |s| && r == s[..|r|] && '\0' !in r
    ensures |r| < |s| ==> s[|r|] == '\0'
  {
    if s == [] || s[0] == '\0' then []
    else [s[0]] + CString(s[1..])
  }

  /** A NUL-terminated text reads back as itself, whatever follows the NUL. */
  lemma {:induction false} CStringOfTerminated(text: seq<char>, rest: seq<char>)
    requires '\0' !in text
    ensures CString(text + ['\0'] + rest) == text
  {
    if text != [] {
      assert (text + ['\0'] + rest)[1..] == text[1..] + ['\0'] + rest;
      CStringOfTerminated(text[1..], rest);
    }
  }

  /** `strstr` never looks past the terminating NUL. */
  lemma {:induction false} NewlineBeforeNulOfTerminated(text: seq<char>, rest: seq<char>)
    ensures NewlineBeforeNul(text + ['\0'] + rest) == NewlineBeforeNul(text)
  {
    if text != [] && text[0] != '\0' && text[0] != '\n' {
      assert (text + ['\0'] + rest)[1..] == text[1..] + ['\0'] + rest;
      NewlineBeforeNulOfTerminated(text[1..], rest);
    }
  }

  /** `strstr(buf, "\n")` on the receive buffer: scans the C string in
      `buf` for its first line feed. */
  method FindNewline(buf: array<char>) returns (end: Option<nat>)
    requires '\0' in buf[..]
    ensures end == NewlineBeforeNul(buf[..])
  {
    var i := 0;
    while buf[i] != '\0'
      invariant 0 <= i < buf.Length
      invariant '\0' in buf[i..]
      invariant NewlineBeforeNul(buf[..]) == Shifted(NewlineBeforeNul(buf[i..]), i)
      decreases buf.Length - i
    {
      assert buf[i..][0] == buf[i];
      if buf[i] == '\n' {
        return Some(i);
      }
      assert buf[i..][1..] == buf[i + 1..];
      i := i + 1;
    }
    end := None;
  }

  /** `strcpy` out of `buf`: copies the characters before the terminating
      NUL. */
  method CopyCString(buf: array<char>) returns (s: string)
    requires '\0' in buf[..]
    ensures s == CString(buf[..])
  {
    var i := 0;
    s := [];
    while buf[i] != '\0'
      invariant 0 <= i < buf.Length
      invariant '\0' in buf[i..]
      invariant CString(buf[..]) == s + CString(buf[i..])
      decreases buf.Length - i
    {
      assert buf[i..][1..] == buf[i + 1..];
      s := s + [buf[i]];
      i := i + 1;
    }
  }

  /** A position `n` further into the buffer. */
  function Shifted(r: Option<nat>, n: nat): Option<nat> {
    match r
    case None => None
    case Some(k) => Some(k + n)
  }

  /** Concrete cases: a CR LF line keeps its CR, an empty line gives an
      empty name, a message without a line feed is refused, and so is one
      whose line feed comes after a NUL. */
  lemma LoginNameExamples()
    ensures LoginName("Alice\r\n") == Some("Alice\r")
    ensures LoginName("\n") == Some("")
    ensures LoginName("Bob") == None
    ensures LoginName("Al\0ice\n") == None
  {
    var alice := "Alice\r\n";
    assert alice[..6] == "Alice\r";
    assert forall i :: 0 <= i < 6 ==> alice[i] != '\n';
    assert '\0' !in alice[..6];
    var split := "Al\0ice\n";
    assert forall i :: 2 < i <= |split| ==> split[..i][2] == '\0';
  }
}
