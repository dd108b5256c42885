/**
 The output path of the demo HTTP server: the loop that sends a whole buffer through partial sends, the
 response it frames with Content-Length, and what a peer following RFC 9112 makes of the bytes.
 */
module SocketDemo {
  import opened Basics
  import opened Decimals

  // ---------- send_all ----------

  /** What one send() does: take up to n bytes, fail with EINTR, or fail for good. */
  datatype Reply = Took(n: nat) | Interrupted | Broken

  /** send_all returned 0, returned -1, or is still inside send() when the schedule ends. */
  datatype Status = Done | Failed | Blocked

  /** A connected socket: the bytes the kernel accepted, and how it will answer the coming sends. */
  class Socket {
    var wire: string
    var replies: seq<Reply>

    method Send(data: string) returns (n: int, interrupted: bool)
      requires replies != []
      modifies this
      ensures replies == old(replies)[1..]
      ensures match old(replies)[0]
              case Took(k) => n == Min(k, |data|) && wire == old(wire) + data[..n]
              case Interrupted => n == -1 && interrupted && wire == old(wire)
              case Broken => n == -1 && !interrupted && wire == old(wire)
    {
      n, interrupted := -1, replies[0].Interrupted?;
      if replies[0].Took? {
        n := Min(replies[0].n, |data|);
        wire := wire + data[..n];
      }
      replies := replies[1..];
    }
  }

  /** The bytes the schedule is ready to take before it breaks. */
  function Capacity(replies: seq<Reply>): nat {
    if replies == [] || replies[0].Broken? then 0
    else (if replies[0].Took? then replies[0].n else 0) + Capacity(replies[1..])
  }

  /** The first k replies report no error. */
  predicate Unbroken(replies: seq<Reply>, k: nat) {
    k <= |replies| && forall i | 0 <= i < k :: !replies[i].Broken?
  }

  /** Reply k is the first error. */
  predicate FirstBreak(replies: seq<Reply>, k: nat) {
    Unbroken(replies, k) && k < |replies| && replies[k].Broken?
  }

  /** Capacities add up as long as nothing breaks, and nothing behind the first error counts. */
  lemma {:induction false} CapacityOf(a: seq<Reply>, b: seq<Reply>)
    requires Unbroken(a, |a|)
    ensures Capacity(a + b) == Capacity(a) + Capacity(b)
    ensures Capacity(a + ([Broken] + b)) == Capacity(a)
    decreases |a|
  {
    if a == [] {
      assert a + b == b && a + ([Broken] + b) == [Broken] + b;
    } else {
      assert (a + b)[0] == a[0] && (a + b)[1..] == a[1..] + b;
      assert (a + ([Broken] + b))[0] == a[0] && (a + ([Broken] + b))[1..] == a[1..] + ([Broken] + b);
      CapacityOf(a[1..], b);
    }
  }

  lemma OneMoreReply(replies: seq<Reply>, k: nat)
    requires Unbroken(replies, k) && k < |replies|
    ensures Capacity(replies[..k + 1]) == Capacity(replies[..k]) + if replies[k].Took? then replies[k].n else 0
  {
    CapacityOf(replies[..k], [replies[k]]);
    assert replies[..k + 1] == replies[..k] + [replies[k]];
    assert [replies[k]][1..] == [];
  }

  /** A send takes what it takes, an interrupted one and a broken one nothing. */
  lemma CapacityOfOne(n: nat)
    ensures Capacity([Took(n)]) == n && Capacity([Interrupted]) == Capacity([Broken]) == 0
  {
  }

  predicate Breaks(replies: seq<Reply>) { exists k | 0 <= k < |replies| :: replies[k].Broken? }

  lemma OneMorePart(data: string, sent: nat, n: nat)
    requires sent + n <= |data|
    ensures data[..sent] + data[sent..][..n] == data[..sent + n]
  {
  }

  lemma RestOfReplies(all: seq<Reply>, used: nat)
    requires used < |all|
    ensures all[used..] != [] && all[used..][0] == all[used] && all[used..][1..] == all[used + 1..]
  {
  }

  /**
   For every schedule of partial sends, EINTRs and errors: the wire gets the data in order, each byte
   once, up to what the schedule takes before it breaks; 0 is returned exactly when that is all of it,
   and -1 only with a strict prefix sent. The loop ends with the schedule: every send uses up a reply.
   */
  method SendAll(sock: Socket, data: string) returns (status: Status)
    modifies sock
    ensures sock.wire == old(sock.wire) + data[..Min(|data|, Capacity(old(sock.replies)))]
    ensures status.Done? <==> |data| <= Capacity(old(sock.replies))
    ensures status.Failed? <==> |data| > Capacity(old(sock.replies)) && Breaks(old(sock.replies))
    ensures status.Failed? ==>
              exists k: nat :: FirstBreak(old(sock.replies), k) && sock.replies == old(sock.replies)[k + 1..]
    ensures status.Done? ==>
              exists k: nat :: Unbroken(old(sock.replies), k) && sock.replies == old(sock.replies)[k..]
                               && (k == 0 || Capacity(old(sock.replies)[..k - 1]) < |data|)
    ensures status.Blocked? ==> sock.replies == [] && Unbroken(old(sock.replies), |old(sock.replies)|)
  {
    var sent: nat := 0;
    ghost var all := sock.replies;
    ghost var used := 0;
    while sent < |data|
      invariant sent <= |data| && used <= |all| && sock.replies == all[used..]
      invariant sock.wire == old(sock.wire) + data[..sent]
      invariant Unbroken(all, used)
      invariant sent < |data| ==> Capacity(all[..used]) == sent
      invariant used > 0 ==> Capacity(all[..used - 1]) < |data|
      invariant sent < |data| ==> Capacity(all) == sent + Capacity(sock.replies)
      invariant sent == |data| ==> Capacity(all) >= sent
      decreases |sock.replies|
    {
      if sock.replies == [] {
        assert Capacity(sock.replies) == 0;
        return Blocked;
      }
      RestOfReplies(all, used);
      OneMoreReply(all, used);
      var n, interrupted := sock.Send(data[sent..]);
      used := used + 1;
      if n < 0 {
        if interrupted {
          continue;
        }
        assert FirstBreak(all, used - 1);
        return Failed;
      }
      OneMorePart(data, sent, n);
      sent := sent + n;
    }
    assert data[..sent] == data;
    assert Unbroken(all, used);
    status := Done;
  }

  lemma {:induction false} EnoughPositiveTakes(replies: seq<Reply>)
    requires forall k | 0 <= k < |replies| :: !replies[k].Broken? && (replies[k].Took? ==> replies[k].n >= 1)
    ensures Capacity(replies) >= Takes(replies)
    decreases |replies|
  {
    if replies == [] {
    } else {
      EnoughPositiveTakes(replies[1..]);
    }
  }

  function Takes(replies: seq<Reply>): nat {
    if replies == [] then 0 else (if replies[0].Took? then 1 else 0) + Takes(replies[1..])
  }

  // ---------- the response ----------

  datatype Header = Header(name: string, value: string)

  /** Header lines, each ended by CRLF, the empty line, and then the body. */
  function HeaderBlock(hs: seq<Header>, body: string): string {
    if hs == [] then "\r\n" + body
    else hs[0].name + ": " + hs[0].value + "\r\n" + HeaderBlock(hs[1..], body)
  }

  function Headers(length: nat): seq<Header> {
    [Header("Content-Type", "text/html; charset=utf-8"), Header("Content-Length", Print(length)),
     Header("Connection", "close"), Header("Cache-Control", "no-store")]
  }

  const STATUS_LINE: string := "HTTP/1.1 200 OK"

  /** What the format string of handle_client prints for a body. */
  function Response(body: string): string { STATUS_LINE + "\r\n" + HeaderBlock(Headers(|body|), body) }

  const RESPONSE_SIZE: nat := 8192

  /** snprintf: as much of the text as fits before a NUL; the result is the length of all of it. */
  method Snprintf(buffer: array<char>, text: string) returns (n: nat)
    requires buffer.Length > 0
    modifies buffer
    ensures n == |text|
    ensures var kept := Min(n, buffer.Length - 1); buffer[..kept] == text[..kept] && buffer[kept] == '\0'
  {
    n := |text|;
    var kept := Min(n, buffer.Length - 1);
    forall k | 0 <= k < kept {
      buffer[k] := text[k];
    }
    buffer[kept] := '\0';
  }

  /** handle_client after recv answered `received`; `answered` is what became of the response, if any. */
  method HandleClient(sock: Socket, received: int, body: string) returns (answered: bool, status: Status)
    modifies sock
    ensures answered <==> received > 0 && |body| <= 8066
    ensures !answered ==> sock.wire == old(sock.wire)
    ensures answered ==>
              var capacity := Capacity(old(sock.replies));
              && sock.wire == old(sock.wire) + Response(body)[..Min(|Response(body)|, capacity)]
              && (status.Done? <==> |Response(body)| <= capacity)
              && ReadResponse(sock.wire[|old(sock.wire)|..])
                 == if |Response(body)| <= capacity then Message(body, "") else Incomplete
  {
    answered, status := false, Blocked;
    FitsIff(body);
    PeerSeesWholeOrNothing(body, sock.replies);
    if received <= 0 {
      return;
    }
    var response := new char[RESPONSE_SIZE];
    var length := Snprintf(response, Response(body));
    if length > 0 && length < RESPONSE_SIZE {
      answered := true;
      assert response[..length] == Response(body);
      status := SendAll(sock, response[..length]);
    } else {
      assert |Response(body)| > 0;
    }
  }

  // ---------- the peer ----------

  /** What a client has of a response: not all of it yet, something it rejects, or a message and what
      follows it. A response without Content-Length would be read until the connection closes. */
  datatype Parse = Incomplete | Rejected | UntilClose | Message(body: string, rest: string)

  datatype Line = NoLine | Line(text: string, rest: string)

  /** The first index at or after i where CRLF starts, or the length. */
  function FindCrlf(s: string, i: nat): (j: nat)
    requires i <= |s|
    ensures i <= j <= |s| && (forall k | i <= k < j :: !(k + 1 < |s| && s[k] == '\r' && s[k + 1] == '\n'))
    ensures j < |s| ==> j + 1 < |s| && s[j] == '\r' && s[j + 1] == '\n'
    decreases |s| - i
  {
    if i >= |s| then i
    else if i + 1 < |s| && s[i] == '\r' && s[i + 1] == '\n' then i
    else FindCrlf(s, i + 1)
  }

  function NextLine(s: string): (r: Line)
    ensures r.Line? ==> |r.rest| < |s|
  {
    var j := FindCrlf(s, 0);
    if j == |s| then NoLine else Line(s[..j], s[j + 2..])
  }

  function FindColon(s: string, i: nat): (j: nat)
    requires i <= |s|
    ensures i <= j <= |s| && (forall k | i <= k < j :: s[k] != ':') && (j < |s| ==> s[j] == ':')
    decreases |s| - i
  {
    if i < |s| && s[i] != ':' then FindColon(s, i + 1) else i
  }

  function Lower(c: char): char { if 'A' <= c <= 'Z' then c - 'A' + 'a' else c }

  /** Field names are case-insensitive; `name` is given in lower case. */
  predicate Names(s: string, name: string) { |s| == |name| && forall k | 0 <= k < |s| :: Lower(s[k]) == name[k] }

  function TrimOws(s: string): string
    decreases |s|
  {
    if s == "" then s
    else if IsBlank(s[0]) then TrimOws(s[1..])
    else if IsBlank(s[|s| - 1]) then TrimOws(s[..|s| - 1])
    else s
  }

  /** Field lines up to the empty line, then the body: sections 6.2 and 6.3 of RFC 9112 without
      transfer codings, which are rejected. Repeated Content-Length fields must agree. */
  function ReadFields(s: string, length: int): Parse
    decreases |s|
  {
    match NextLine(s)
    case NoLine => Incomplete
    case Line(text, rest) =>
      if text == "" then ReadBody(rest, length)
      else
        var colon := FindColon(text, 0);
        if colon == |text| || Names(text[..colon], "transfer-encoding") then Rejected
        else if !Names(text[..colon], "content-length") then ReadFields(rest, length)
        else
          var value := TrimOws(text[colon + 1..]);
          if !AllDigits(value) || (length >= 0 && length != ToNat(value)) then Rejected
          else ReadFields(rest, ToNat(value))
  }

  function ReadBody(s: string, length: int): Parse {
    if length < 0 then UntilClose else if |s| < length then Incomplete else Message(s[..length], s[length..])
  }

  /** Status codes 1xx, 204 and 304 come without a body. */
  predicate IsBodiless(status: string)
    requires |status| >= 12
  {
    status[9] == '1' || ((status[9] == '2' || status[9] == '3') && status[10] == '0' && status[11] == '4')
  }

  /** A status line with a three-digit code of a response that has a body, then the fields. */
  function ReadResponse(s: string): Parse {
    match NextLine(s)
    case NoLine => Incomplete
    case Line(text, rest) =>
      if |text| < 12 || text[..5] != "HTTP/" || text[8] != ' ' then Rejected
      else if IsBodiless(text) then Message("", rest)
      else ReadFields(rest, -1)
  }

  lemma NextLineIs(line: string, rest: string)
    requires forall k | 0 <= k < |line| :: line[k] != '\r'
    ensures NextLine(line + "\r\n" + rest) == Line(line, rest)
  {
    var s := line + "\r\n" + rest;
    assert forall k | 0 <= k < |line| :: s[k] == line[k];
    assert s[|line|] == '\r' && s[|line| + 1] == '\n';
    assert FindCrlf(s, 0) == |line|;
    assert s[..|line|] == line && s[|line| + 2..] == rest;
  }

  lemma FieldLine(h: Header, rest: string)
    requires NoStops(h)
    ensures var line := h.name + ": " + h.value;
            NextLine(line + "\r\n" + rest) == Line(line, rest) && FindColon(line, 0) == |h.name|
            && line[..|h.name|] == h.name && line[|h.name| + 1..] == " " + h.value
  {
    var line := h.name + ": " + h.value;
    Joined(h.name, ':', h.value, line);
    NextLineIs(line, rest);
  }

  lemma Joined(name: string, stop: char, value: string, line: string)
    requires line == name + [stop, ' '] + value && stop == ':'
    requires (forall k | 0 <= k < |name| :: name[k] != stop && name[k] != '\r') && forall k | 0 <= k < |value| :: value[k] != '\r'
    ensures (forall k | 0 <= k < |line| :: line[k] != '\r') && FindColon(line, 0) == |name|
    ensures line[..|name|] == name && line[|name| + 1..] == " " + value
  {
    assert forall k | 0 <= k < |name| :: line[k] == name[k];
    assert line[|name|] == stop && line[|name| + 1] == ' ';
    assert forall k | 0 <= k < |value| :: line[|name| + 2 + k] == value[k];
  }

  predicate NoStops(h: Header) {
    && (forall k | 0 <= k < |h.name| :: h.name[k] != ':' && h.name[k] != '\r')
    && (forall k | 0 <= k < |h.value| :: h.value[k] != '\r')
  }

  predicate IsLength(h: Header) { Names(h.name, "content-length") }

  /** Headers a server may send: no stop characters, no transfer coding, and lengths in decimal. */
  predicate Framed(h: Header) {
    NoStops(h) && !Names(h.name, "transfer-encoding") && (IsLength(h) ==> AllDigits(h.value))
  }

  /** The length a block of headers announces, or the one known before it. */
  function Announced(hs: seq<Header>, length: int): int
    requires forall k | 0 <= k < |hs| :: Framed(hs[k])
  {
    if hs == [] then length
    else
      assert Framed(hs[0]);
      Announced(hs[1..], if IsLength(hs[0]) then ToNat(hs[0].value) else length)
  }

  /** No two headers announce different lengths. */
  ghost predicate OneLength(hs: seq<Header>, length: int)
    requires forall k | 0 <= k < |hs| :: Framed(hs[k])
  {
    hs != [] ==>
      assert Framed(hs[0]);
      if IsLength(hs[0]) then (length < 0 || length == ToNat(hs[0].value)) && OneLength(hs[1..], ToNat(hs[0].value))
      else OneLength(hs[1..], length)
  }

  lemma TrimDigits(digits: string)
    requires AllDigits(digits)
    ensures TrimOws(" " + digits) == digits
  {
    assert (" " + digits)[1..] == digits;
    assert !IsBlank(digits[0]) && !IsBlank(digits[|digits| - 1]);
  }

  /** One header line is read with the length it announces, if it announces one. */
  lemma {:induction false} OneField(h: Header, rest: string, length: int)
    requires Framed(h) && (IsLength(h) ==> length < 0 || length == ToNat(h.value))
    ensures ReadFields(h.name + ": " + h.value + "\r\n" + rest, length)
            == ReadFields(rest, if IsLength(h) then ToNat(h.value) else length)
  {
    FieldLine(h, rest);
    if IsLength(h) {
      TrimDigits(h.value);
    }
  }

  /** Any block of headers is read up to the body, with the length it announces. */
  lemma {:induction false} ReadHeaderBlock(hs: seq<Header>, body: string, length: int)
    requires (forall k | 0 <= k < |hs| :: Framed(hs[k])) && OneLength(hs, length)
    ensures ReadFields(HeaderBlock(hs, body), length) == ReadBody(body, Announced(hs, length))
    decreases |hs|
  {
    if hs == [] {
      NoMoreFields(body, length);
    } else {
      assert Framed(hs[0]);
      OneField(hs[0], HeaderBlock(hs[1..], body), length);
      ReadHeaderBlock(hs[1..], body, if IsLength(hs[0]) then ToNat(hs[0].value) else length);
    }
  }

  lemma {:induction false} NoMoreFields(body: string, length: int)
    ensures ReadFields("\r\n" + body, length) == ReadBody(body, length)
  {
    NextLineIs("", body);
    assert "" + "\r\n" + body == "\r\n" + body;
  }

  lemma {:induction false} BlockThenMore(hs: seq<Header>, body: string, more: string)
    ensures HeaderBlock(hs, body) + more == HeaderBlock(hs, body + more)
    decreases |hs|
  {
    if hs == [] {
      assert "\r\n" + body + more == "\r\n" + (body + more);
    } else {
      BlockThenMore(hs[1..], body, more);
      var line := hs[0].name + ": " + hs[0].value + "\r\n";
      assert line + HeaderBlock(hs[1..], body) + more == line + (HeaderBlock(hs[1..], body) + more);
    }
  }

  /** A status line of a response that carries a body. */
  predicate HasBody(text: string) {
    && |text| >= 12 && text[..5] == "HTTP/" && text[8] == ' '
    && !IsBodiless(text) && forall k | 0 <= k < |text| :: text[k] != '\r'
  }

  /** Any response whose headers announce the length of its body is read back exactly, whatever follows. */
  lemma {:induction false} FramedMessage(status: string, hs: seq<Header>, body: string, more: string)
    requires HasBody(status) && (forall k | 0 <= k < |hs| :: Framed(hs[k]))
    requires OneLength(hs, -1) && Announced(hs, -1) == |body|
    ensures ReadResponse(status + "\r\n" + HeaderBlock(hs, body) + more) == Message(body, more)
  {
    var block := HeaderBlock(hs, body + more);
    BlockThenMore(hs, body, more);
    assert status + "\r\n" + HeaderBlock(hs, body) + more == status + "\r\n" + block;
    NextLineIs(status, block);
    ReadHeaderBlock(hs, body + more, -1);
    assert (body + more)[..|body|] == body && (body + more)[|body|..] == more;
  }

  lemma ContentTypeIsFramed()
    ensures Framed(Header("Content-Type", "text/html; charset=utf-8")) && !IsLength(Header("Content-Type", "text/html; charset=utf-8"))
  {
  }

  lemma ContentLengthIsFramed(n: nat)
    ensures Framed(Header("Content-Length", Print(n))) && IsLength(Header("Content-Length", Print(n)))
  {
  }

  lemma OthersAreFramed()
    ensures Framed(Header("Connection", "close")) && !IsLength(Header("Connection", "close"))
    ensures Framed(Header("Cache-Control", "no-store")) && !IsLength(Header("Cache-Control", "no-store"))
  {
  }

  lemma AnnouncedByFour(hs: seq<Header>, n: nat)
    requires |hs| == 4 && (forall k | 0 <= k < 4 :: Framed(hs[k]) && (IsLength(hs[k]) <==> k == 1))
    requires AllDigits(hs[1].value) && ToNat(hs[1].value) == n
    ensures OneLength(hs, -1) && Announced(hs, -1) == n
  {
    assert hs[1..][1..] == hs[2..] && hs[2..][1..] == hs[3..] && hs[3..][1..] == [];
    assert Announced(hs[3..], n) == n && OneLength(hs[3..], n);
    assert Announced(hs[2..], n) == n && OneLength(hs[2..], n);
    assert Announced(hs[1..], -1) == n && OneLength(hs[1..], -1);
  }

  lemma {:induction false} ResponseHeaders(n: nat)
    ensures (forall k | 0 <= k < |Headers(n)| :: Framed(Headers(n)[k]))
    ensures OneLength(Headers(n), -1) && Announced(Headers(n), -1) == n
  {
    ContentTypeIsFramed();
    ContentLengthIsFramed(n);
    OthersAreFramed();
    PrintRoundTrip(n);
    AnnouncedByFour(Headers(n), n);
  }

  lemma StatusLineHasBody()
    ensures HasBody(STATUS_LINE)
  {
  }

  /** The body framed by its printed length comes back exactly, whatever follows it on the connection. */
  lemma {:induction false} FramingRoundTrip(body: string, more: string)
    ensures ReadResponse(Response(body) + more) == Message(body, more)
  {
    StatusLineHasBody();
    ResponseHeaders(|body|);
    FramedMessage(STATUS_LINE, Headers(|body|), body, more);
  }

  // ---------- the head ----------

  /** The status line and the fields of a response, with the blanks around the values removed. */
  datatype Head = NoHead | Head(version: string, code: string, fields: seq<Header>)

  function ReadNamed(s: string): Option<seq<Header>>
    decreases |s|
  {
    match NextLine(s)
    case NoLine => None
    case Line(text, rest) =>
      if text == "" then Some([])
      else
        var colon := FindColon(text, 0);
        var more := ReadNamed(rest);
        if colon == |text| || more.None? then None
        else Some([Header(text[..colon], TrimOws(text[colon + 1..]))] + more.value)
  }

  function ReadHead(s: string): Head {
    match NextLine(s)
    case NoLine => NoHead
    case Line(text, rest) =>
      var fields := ReadNamed(rest);
      if |text| < 12 || fields.None? then NoHead else Head(text[..8], text[9..12], fields.value)
  }

  /** The value of the first field of that name, which is given in lower case. */
  function FieldValue(fields: seq<Header>, name: string): Option<string> {
    if fields == [] then None
    else if Names(fields[0].name, name) then Some(fields[0].value)
    else FieldValue(fields[1..], name)
  }

  predicate Solid(value: string) { value != "" && !IsBlank(value[0]) && !IsBlank(value[|value| - 1]) }

  lemma {:induction false} NamedRoundTrip(hs: seq<Header>, body: string)
    requires forall k | 0 <= k < |hs| :: NoStops(hs[k]) && Solid(hs[k].value)
    ensures ReadNamed(HeaderBlock(hs, body)) == Some(hs)
    decreases |hs|
  {
    if hs == [] {
      NoMoreNamed(body);
    } else {
      NamedRoundTrip(hs[1..], body);
      FrontNamed(hs, body);
    }
  }

  lemma {:induction false} FrontNamed(hs: seq<Header>, body: string)
    requires hs != [] && NoStops(hs[0]) && Solid(hs[0].value) && ReadNamed(HeaderBlock(hs[1..], body)) == Some(hs[1..])
    ensures ReadNamed(HeaderBlock(hs, body)) == Some(hs)
  {
    OneNamed(hs[0], HeaderBlock(hs[1..], body), hs[1..]);
    assert [hs[0]] + hs[1..] == hs;
  }

  lemma {:induction false} NoMoreNamed(body: string)
    ensures ReadNamed("\r\n" + body) == Some([])
  {
    NextLineIs("", body);
    assert "" + "\r\n" + body == "\r\n" + body;
  }

  lemma {:induction false} OneNamed(h: Header, rest: string, more: seq<Header>)
    requires NoStops(h) && Solid(h.value) && ReadNamed(rest) == Some(more)
    ensures ReadNamed(h.name + ": " + h.value + "\r\n" + rest) == Some([h] + more)
  {
    var line := h.name + ": " + h.value;
    FieldLine(h, rest);
    TrimSolid(h.value);
    assert |line| > |h.name| && line != "";
  }

  lemma TrimSolid(value: string)
    requires Solid(value)
    ensures TrimOws(" " + value) == value
  {
    assert (" " + value)[1..] == value;
  }

  lemma {:induction false} FindField(hs: seq<Header>, k: nat, name: string)
    requires k < |hs| && Names(hs[k].name, name) && forall j | 0 <= j < k :: |hs[j].name| != |name|
    ensures FieldValue(hs, name) == Some(hs[k].value)
    decreases k
  {
    if k == 0 {
    } else {
      FindField(hs[1..], k - 1, name);
    }
  }

  lemma HeadersAreSolid(n: nat)
    ensures forall k | 0 <= k < |Headers(n)| :: NoStops(Headers(n)[k]) && Solid(Headers(n)[k].value)
  {
    ContentTypeIsFramed();
    ContentLengthIsFramed(n);
    OthersAreFramed();
    assert Solid("text/html; charset=utf-8") && Solid("close") && Solid("no-store");
    assert !IsBlank(Print(n)[0]) && !IsBlank(Print(n)[|Print(n)| - 1]);
  }

  /** The status line and the fields come back as printed. */
  lemma {:induction false} HeadRoundTrip(body: string, more: string)
    ensures ReadHead(Response(body) + more) == Head(STATUS_LINE[..8], STATUS_LINE[9..12], Headers(|body|))
  {
    var block := HeaderBlock(Headers(|body|), body + more);
    BlockThenMore(Headers(|body|), body, more);
    assert Response(body) + more == STATUS_LINE + "\r\n" + block;
    StatusLineHasBody();
    NextLineIs(STATUS_LINE, block);
    HeadersAreSolid(|body|);
    NamedRoundTrip(Headers(|body|), body + more);
  }

  /**
   What the peer learns besides the body: HTTP/1.1, success, the media type, the length in decimal, that
   the connection closes and that nothing is to be cached.
   */
  lemma {:induction false} PeerReadsTheHead(body: string, more: string)
    ensures var head := ReadHead(Response(body) + more);
            && head.Head? && head.version == "HTTP/1.1" && head.code == "200"
            && FieldValue(head.fields, "content-type") == Some("text/html; charset=utf-8")
            && FieldValue(head.fields, "content-length") == Some(Print(|body|))
            && FieldValue(head.fields, "connection") == Some("close")
            && FieldValue(head.fields, "cache-control") == Some("no-store")
  {
    HeadRoundTrip(body, more);
    StatusParts();
    FieldsOf(Headers(|body|));
  }

  lemma StatusParts()
    ensures STATUS_LINE[..8] == "HTTP/1.1" && STATUS_LINE[9..12] == "200"
  {
  }

  lemma {:induction false} FieldsOf(hs: seq<Header>)
    requires |hs| == 4 && hs[0].name == "Content-Type" && hs[1].name == "Content-Length"
    requires hs[2].name == "Connection" && hs[3].name == "Cache-Control"
    ensures FieldValue(hs, "content-type") == Some(hs[0].value) && FieldValue(hs, "content-length") == Some(hs[1].value)
    ensures FieldValue(hs, "connection") == Some(hs[2].value) && FieldValue(hs, "cache-control") == Some(hs[3].value)
  {
    FirstNames(hs);
    LastNames(hs);
    FindField(hs, 0, "content-type");
    FindField(hs, 1, "content-length");
    FindField(hs, 2, "connection");
    FindField(hs, 3, "cache-control");
  }

  lemma FirstNames(hs: seq<Header>)
    requires |hs| == 4 && hs[0].name == "Content-Type" && hs[1].name == "Content-Length"
    ensures Names(hs[0].name, "content-type") && Names(hs[1].name, "content-length")
  {
  }

  lemma LastNames(hs: seq<Header>)
    requires |hs| == 4 && hs[2].name == "Connection" && hs[3].name == "Cache-Control"
    ensures Names(hs[2].name, "connection") && Names(hs[3].name, "cache-control")
  {
  }

  lemma {:induction false} BlockLength(hs: seq<Header>, body: string)
    ensures |HeaderBlock(hs, body)| == Sizes(hs) + 2 + |body|
    decreases |hs|
  {
    if hs == [] {
    } else {
      BlockLength(hs[1..], body);
    }
  }

  function Sizes(hs: seq<Header>): nat {
    if hs == [] then 0 else |hs[0].name| + |hs[0].value| + 4 + Sizes(hs[1..])
  }

  lemma FourSizes(a: Header, b: Header, c: Header, d: Header)
    ensures Sizes([a, b, c, d])
            == |a.name| + |a.value| + |b.name| + |b.value| + |c.name| + |c.value| + |d.name| + |d.value| + 16
  {
    assert [a, b, c, d][1..] == [b, c, d] && [b, c, d][1..] == [c, d] && [c, d][1..] == [d];
    assert Sizes([d]) == |d.name| + |d.value| + 4;
    assert Sizes([c, d]) == |c.name| + |c.value| + 4 + Sizes([d]);
    assert Sizes([b, c, d]) == |b.name| + |b.value| + 4 + Sizes([c, d]);
  }

  /** Which bodies the buffer has room for, the terminating NUL counted. */
  lemma {:induction false} FitsIff(body: string)
    ensures |Response(body)| < RESPONSE_SIZE <==> |body| <= 8066
  {
    var n := |body|;
    BlockLength(Headers(n), body);
    FourSizes(Headers(n)[0], Headers(n)[1], Headers(n)[2], Headers(n)[3]);
    assert |Response(body)| == 121 + |Print(n)| + n;
    FourDigits(n);
    PrintIsShortest(n);
    if n == 8067 || |Print(n)| < 4 {
      Pow10Grows(|Print(n)|, if |Print(n)| < 4 then 3 else |Print(n)|);
    }
    assert Pow10(3) == 1000;
  }

  // ---------- what a peer sees of an interrupted response ----------

  /** A prefix either still holds the whole first line, or no line at all. */
  lemma NextLineOfPrefix(s: string, k: nat)
    requires k <= |s| && NextLine(s).Line?
    ensures var Line(text, rest) := NextLine(s);
            var used := |s| - |rest|;
            NextLine(s[..k]) == if k < used then NoLine else Line(text, rest[..k - used])
  {
    var p := s[..k];
    var i, j := FindCrlf(p, 0), FindCrlf(s, 0);
    assert i < |p| ==> s[i] == '\r' && s[i + 1] == '\n';
    if j + 2 <= k {
      assert p[j] == '\r' && p[j + 1] == '\n';
      assert p[..j] == s[..j] && p[j + 2..] == s[j + 2..][..k - (j + 2)];
    }
  }

  lemma {:induction false} FieldsOfPrefix(s: string, length: int, k: nat)
    requires ReadFields(s, length).Message? && k < |s| - |ReadFields(s, length).rest|
    ensures ReadFields(s[..k], length) == Incomplete
    decreases |s|
  {
    NextLineOfPrefix(s, k);
    var Line(text, rest) := NextLine(s);
    var used := |s| - |rest|;
    if k >= used {
      var p := rest[..k - used];
      if text == "" {
        assert ReadFields(s, length) == ReadBody(rest, length) && ReadFields(s[..k], length) == ReadBody(p, length);
      } else {
        var next := LengthAfter(text, length);
        assert ReadFields(s, length) == ReadFields(rest, next) && ReadFields(s[..k], length) == ReadFields(p, next);
        FieldsOfPrefix(rest, next, k - used);
      }
    }
  }

  /** The length known after an accepted field line. */
  function LengthAfter(text: string, length: int): int {
    var colon := FindColon(text, 0);
    if colon < |text| && Names(text[..colon], "content-length") && AllDigits(TrimOws(text[colon + 1..]))
    then ToNat(TrimOws(text[colon + 1..])) else length
  }

  /** A status line that is followed by fields and a body. */
  predicate ReadsOn(text: string) { |text| >= 12 && text[..5] == "HTTP/" && text[8] == ' ' && !IsBodiless(text) }

  lemma {:induction false} ReadByFields(s: string, text: string, rest: string)
    requires NextLine(s) == Line(text, rest) && ReadsOn(text)
    ensures ReadResponse(s) == ReadFields(rest, -1)
  {
  }

  /** The first line of a message: either the fields behind it make the message, or it has no body. */
  lemma {:induction false} FirstLineOfMessage(s: string) returns (text: string, rest: string)
    requires ReadResponse(s).Message?
    ensures NextLine(s) == Line(text, rest)
    ensures if ReadsOn(text) then ReadFields(rest, -1) == ReadResponse(s) else ReadResponse(s).rest == rest
  {
    text, rest := NextLine(s).text, NextLine(s).rest;
    if ReadsOn(text) {
      ReadByFields(s, text, rest);
    }
  }

  lemma {:induction false} NothingYet(s: string)
    requires NextLine(s).NoLine?
    ensures ReadResponse(s) == Incomplete
  {
  }

  /** A part of a message that has the whole status line still lacks some of what the fields announce. */
  lemma {:induction false} PartOfFields(p: string, text: string, rest: string, k: nat)
    requires ReadsOn(text) && ReadFields(rest, -1).Message? && k < |rest| - |ReadFields(rest, -1).rest|
    requires NextLine(p) == Line(text, rest[..k])
    ensures ReadResponse(p) == Incomplete
  {
    FieldsOfPrefix(rest, -1, k);
    ReadByFields(p, text, rest[..k]);
  }

  /** A client that has only part of a message never takes it for the whole. */
  lemma {:induction false} PrefixIsIncomplete(s: string, k: nat)
    requires ReadResponse(s).Message? && k < |s| - |ReadResponse(s).rest|
    ensures ReadResponse(s[..k]) == Incomplete
  {
    var text, rest := FirstLineOfMessage(s);
    NextLineOfPrefix(s, k);
    var used := |s| - |rest|;
    if k < used {
      NothingYet(s[..k]);
    } else {
      PartOfFields(s[..k], text, rest, k - used);
    }
  }

  /**
   Whatever the connection did to the response, the peer has the whole message or knows that it does not:
   with all bytes it reads exactly the body, with any fewer it still waits for more.
   */
  lemma {:induction false} PeerSeesWholeOrNothing(body: string, replies: seq<Reply>)
    ensures var sent := Response(body)[..Min(|Response(body)|, Capacity(replies))];
            ReadResponse(sent) == if |Response(body)| <= Capacity(replies) then Message(body, "") else Incomplete
  {
    FramingRoundTrip(body, "");
    assert Response(body) + "" == Response(body);
    var k := Min(|Response(body)|, Capacity(replies));
    if k < |Response(body)| {
      PrefixIsIncomplete(Response(body), k);
    } else {
      assert Response(body)[..k] == Response(body);
    }
  }
}
