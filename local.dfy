/** The client side of the tunnel, src/share/local.cc: `LocalClient`
    speaks SOCKS5 (RFC 1928) or HTTP CONNECT to a local application,
    turns the destination into the target address header the server
    decodes, and relays the application's bytes through the codec to the
    remote server. The request parsers are functions with the exact
    acceptance conditions of the source (the CONNECT parse, which scans with
    loops, is a method proved against its function); each relay callback
    is a function on `Local`, the object's state with its bufferevents
    abstracted as write logs and read flags. */
module Local {
  import opened Bytes
  import opened KeyMaterial
  import opened CryptoStream
  import opened Creator
  import Remote

  const SOCKS5_VERSION: byte := 5
  const SOCKS5_CMD_CONNECT: byte := 1
  /** The method selection reply: version 5, no authentication. */
  const METHOD_REPLY: seq<byte> := [5, 0]
  /** The request reply: succeeded, IPv4 0.0.0.0, port 0x1010. */
  const SOCKS5_REPLY: seq<byte> := [5, 0, 0, 1, 0, 0, 0, 0, 0x10, 0x10]
  const SP: byte := 32
  const COLON: byte := 58

  function ConnectPrefix(): (r: seq<byte>)
    ensures |r| == 8
  {
    Ascii("CONNECT ")
  }

  function HttpVersion(): (r: seq<byte>)
    ensures |r| == 8
  {
    Ascii(" HTTP/1.")
  }

  function BlankLine(): (r: seq<byte>)
    ensures |r| == 4
  {
    Ascii("\r\n\r\n")
  }

  function HttpReply(): (r: seq<byte>)
    ensures |r| == 39
  {
    Ascii("HTTP/1.1 200 Connection Established\r\n\r\n")
  }

  // ---------------------------------------------------------------------
  // SOCKS5

  /** The length a CONNECT request must have for its address type: 10 for
      IPv4, 7 plus the name length for a host name, 22 for IPv6, none for
      any other type. */
  function RequestLength(data: seq<byte>): (n: Option<nat>)
    requires |data| >= 7
    ensures n.Some? <==> data[3] in {Remote.ATYP_IPV4, Remote.ATYP_DOMAIN, Remote.ATYP_IPV6}
  {
    if data[3] == Remote.ATYP_IPV4 then Some(10)
    else if data[3] == Remote.ATYP_DOMAIN then Some(7 + data[4] as nat)
    else if data[3] == Remote.ATYP_IPV6 then Some(22)
    else None
  }

  /** The WAITHDR check: at least 7 bytes, version 5, command CONNECT, a
      known address type, and the whole address and port present. The
      reserved byte and anything after the port are not looked at. */
  predicate Socks5Request(data: seq<byte>)
  {
    && |data| >= 7 && data[0] == SOCKS5_VERSION && data[1] == SOCKS5_CMD_CONNECT
    && RequestLength(data).Some? && RequestLength(data).value <= |data|
  }

  /** A request the local side accepts becomes, from its address type on,
      a header the server accepts exactly when its port is not zero, with
      the request's address and port and the request's length less 3. */
  lemma {:induction false} Socks5RequestIsHeader(data: seq<byte>)
    requires Socks5Request(data)
    ensures var rear := RequestLength(data).value;
      var addrPos := if data[3] == Remote.ATYP_DOMAIN then 5 else 4;
      Remote.DecodeHeader(data[3..]) ==
        if ReadBE16(data, rear - 2) == 0 then Remote.Rejected(Remote.HeaderPort)
        else Remote.Accepted(Remote.Target(data[3], data[addrPos .. rear - 2], ReadBE16(data, rear - 2)), rear - 3)
  {
    var h := data[3..];
    assert h[0] == data[3];
    assert |h| >= 4;
    if data[3] == Remote.ATYP_DOMAIN {
      assert h[1] == data[4];
    }
    var rear := RequestLength(data).value;
    assert ReadBE16(h, rear - 5) == ReadBE16(data, rear - 2);
    var addrPos: nat := if data[3] == Remote.ATYP_DOMAIN then 5 else 4;
    assert addrPos <= rear - 2 <= |data|;
    assert forall k :: addrPos <= k < rear - 2 ==> h[k - 3] == data[k];
    assert h[addrPos - 3 .. rear - 5] == data[addrPos .. rear - 2];
  }

  // ---------------------------------------------------------------------
  // HTTP CONNECT

  /** The destination of a CONNECT request. */
  datatype HostPort = HostPort(host: seq<byte>, port: int)

  /** The first space at or after `i`, or the end. */
  function SpaceFrom(data: seq<byte>, i: nat): (e: nat)
    requires i <= |data|
    ensures i <= e <= |data| && (e < |data| ==> data[e] == SP)
    ensures forall k :: i <= k < e ==> data[k] != SP
    decreases |data| - i
  {
    if i == |data| || data[i] == SP then i else SpaceFrom(data, i + 1)
  }

  /** The last colon in `data(lo..i]`, or `lo` when there is none. */
  function ColonBefore(data: seq<byte>, lo: nat, i: nat): (s: nat)
    requires lo <= i < |data|
    ensures lo <= s <= i && (s > lo ==> data[s] == COLON)
    ensures forall k :: s < k <= i ==> data[k] != COLON
    decreases i
  {
    if i == lo || data[i] == COLON then i else ColonBefore(data, lo, i - 1)
  }

  /** `strlen`: the bytes before the first NUL. */
  function Strlen(s: seq<byte>): (n: nat)
    ensures n <= |s| && (n < |s| ==> s[n] == 0)
    ensures forall k :: 0 <= k < n ==> s[k] != 0
  {
    if |s| == 0 || s[0] == 0 then 0 else 1 + Strlen(s[1..])
  }

  predicate IsSpace(b: byte)
  {
    b == SP || 9 <= b <= 13
  }

  predicate IsDigit(b: byte)
  {
    48 <= b <= 57
  }

  function SkipSpace(s: seq<byte>): (t: seq<byte>)
    ensures |t| <= |s| && t == s[|s| - |t|..]
    ensures |t| > 0 ==> !IsSpace(t[0])
  {
    if |s| > 0 && IsSpace(s[0]) then SkipSpace(s[1..]) else s
  }

  /** The value of the leading digits of `s`, read left to right onto
      `acc`. */
  function LeadingDecimal(s: seq<byte>, acc: nat): nat
  {
    if |s| > 0 && IsDigit(s[0]) then LeadingDecimal(s[1..], acc * 10 + (s[0] - 48) as nat) else acc
  }

  /** `atoi`: white space, an optional sign, decimal digits. */
  function Atoi(s: seq<byte>): int
  {
    var t := SkipSpace(s);
    if |t| > 0 && t[0] == 45 then -(LeadingDecimal(t[1..], 0) as int)
    else if |t| > 0 && t[0] == 43 then LeadingDecimal(t[1..], 0)
    else LeadingDecimal(t, 0)
  }

  /** More than 25 bytes, starting "CONNECT " and ending in a blank line. */
  predicate ConnectFramed(data: seq<byte>)
  {
    |data| > 25 && data[..8] == ConnectPrefix() && data[|data| - 4..] == BlankLine()
  }

  /** " HTTP/1." at `end`, with at least two bytes after it. */
  predicate VersionAt(data: seq<byte>, end: nat)
  {
    end + 10 <= |data| && data[end .. end + 8] == HttpVersion()
  }

  /** The CONNECT branch of STEP_INIT: more than 25 bytes, "CONNECT " and a
      blank line at the end; the authority runs from offset 8 to the first
      space after offset 8, which must start " HTTP/1." with at least two
      bytes after it; the host runs to the last colon of the authority and
      stops at its first NUL; the port text after the colon is read by
      `atoi`. Refused: no colon after offset 8, an empty port text, a host
      over 127 bytes, a port outside 1..65535. */
  function ConnectRequest(data: seq<byte>): (r: Option<HostPort>)
    ensures r.Some? ==> |data| > 25 && data[..8] == ConnectPrefix()
    ensures r.Some? ==> |r.value.host| <= 127 && 1 <= r.value.port <= 65535
    ensures r.Some? ==> 8 + |r.value.host| < |data| && data[8 .. 8 + |r.value.host|] == r.value.host
    ensures r.Some? ==> forall k :: 0 <= k < |r.value.host| ==> r.value.host[k] != 0
  {
    if !ConnectFramed(data) then None
    else
      var end := SpaceFrom(data, 9);
      if !VersionAt(data, end) then None
      else
        var sep := ColonBefore(data, 8, end);
        if sep <= 8 || sep == end - 1 then None
        else ConnectFields(data, sep, end)
  }

  /** The host and port of a CONNECT request whose authority ends at the
      space `end` and whose last colon is at `sep`: `strlen` of the host
      text from offset 8, `atoi` of the port text after the colon. */
  function ConnectFields(data: seq<byte>, sep: nat, end: nat): (r: Option<HostPort>)
    requires 8 < sep < end < |data|
    ensures r.Some? ==> |r.value.host| <= 127 && 1 <= r.value.port <= 65535
    ensures r.Some? ==> 8 + |r.value.host| < |data| && data[8 .. 8 + |r.value.host|] == r.value.host
    ensures r.Some? ==> forall k :: 0 <= k < |r.value.host| ==> r.value.host[k] != 0
  {
    var addrLen := Strlen(data[8..sep]);
    var port := Atoi(data[sep + 1 .. end]);
    if addrLen > 127 || port < 1 || port > 65535 then None
    else
      assert data[8 .. 8 + addrLen] == data[8..sep][..addrLen];
      Some(HostPort(data[8 .. 8 + addrLen], port))
  }

  /** The scan `while (end < data_len && data[end] != ' ') ++end`. */
  method FindSpace(data: seq<byte>, from: nat) returns (end: nat)
    requires from <= |data|
    ensures end == SpaceFrom(data, from)
  {
    end := from;
    while end < |data| && data[end] != SP
      invariant from <= end <= |data|
      invariant SpaceFrom(data, end) == SpaceFrom(data, from)
      decreases |data| - end
    {
      end := end + 1;
    }
  }

  /** The scan `while (sep > begin && data[sep] != ':') --sep`. */
  method FindColon(data: seq<byte>, begin: nat, end: nat) returns (sep: nat)
    requires begin <= end < |data|
    ensures sep == ColonBefore(data, begin, end)
  {
    sep := end;
    while sep > begin && data[sep] != COLON
      invariant begin <= sep <= end
      invariant ColonBefore(data, begin, sep) == ColonBefore(data, begin, end)
    {
      sep := sep - 1;
    }
  }

  /** What `ConnectRequest` gives once the framing and the version are
      checked and the space and the colon are found. */
  lemma ConnectRequestAt(data: seq<byte>, end: nat, sep: nat)
    requires ConnectFramed(data) && end == SpaceFrom(data, 9) && VersionAt(data, end)
    requires sep == ColonBefore(data, 8, end)
    ensures sep <= 8 || sep == end - 1 ==> ConnectRequest(data) == None
    ensures !(sep <= 8 || sep == end - 1) ==> 8 < sep < end < |data| && ConnectRequest(data) == ConnectFields(data, sep, end)
  {
  }

  /** The CONNECT branch with its two scanning loops. */
  method ParseConnect(data: seq<byte>) returns (r: Option<HostPort>)
    ensures r == ConnectRequest(data)
  {
    if !ConnectFramed(data) {
      return None;
    }
    var begin := 8;
    var end := FindSpace(data, begin + 1);
    if !VersionAt(data, end) {
      return None;
    }
    var sep := FindColon(data, begin, end);
    ConnectRequestAt(data, end, sep);
    if sep <= begin || sep == end - 1 {
      return None;
    }
    var addrLen := Strlen(data[begin..sep]);
    var port := Atoi(data[sep + 1 .. end]);
    if addrLen > 127 || port < 1 || port > 65535 {
      return None;
    }
    r := Some(HostPort(data[begin .. begin + addrLen], port));
  }

  /** The decimal text of `n`, without leading zeros. */
  function Dec(n: nat): (s: seq<byte>)
    ensures |s| >= 1 && forall k :: 0 <= k < |s| ==> IsDigit(s[k])
  {
    if n < 10 then [(48 + n) as byte] else Dec(n / 10) + [(48 + n % 10) as byte]
  }

  lemma {:induction false} LeadingDecimalAppend(a: seq<byte>, b: seq<byte>, acc: nat)
    requires forall k :: 0 <= k < |a| ==> IsDigit(a[k])
    ensures LeadingDecimal(a + b, acc) == LeadingDecimal(b, LeadingDecimal(a, acc))
    decreases |a|
  {
    if |a| == 0 {
      assert a + b == b;
    } else {
      assert (a + b)[0] == a[0] && (a + b)[1..] == a[1..] + b;
      LeadingDecimalAppend(a[1..], b, acc * 10 + (a[0] - 48) as nat);
    }
  }

  /** The digits of `Dec(n)` read back to `n`. */
  lemma {:induction false} DecReads(n: nat)
    ensures LeadingDecimal(Dec(n), 0) == n
    decreases n
  {
    var d: byte := (48 + n % 10) as byte;
    if n < 10 {
      assert Dec(n) == [d] && [d][1..] == [];
    } else {
      DecReads(n / 10);
      LeadingDecimalAppend(Dec(n / 10), [d], 0);
      assert [d][1..] == [];
      assert LeadingDecimal([d], n / 10) == n / 10 * 10 + n % 10;
    }
  }

  /** `atoi` reads back the decimal text of a number. */
  lemma {:induction false} AtoiDec(n: nat)
    ensures LeadingDecimal(Dec(n), 0) == n && Atoi(Dec(n)) == n
  {
    var s := Dec(n);
    DecReads(n);
    assert IsDigit(s[0]);
    assert !IsSpace(s[0]) && s[0] != 45 && s[0] != 43;
    assert SkipSpace(s) == s;
    assert Atoi(s) == LeadingDecimal(s, 0);
  }

  lemma {:induction false} SpaceAt(data: seq<byte>, i: nat, e: nat)
    requires i <= e < |data| && data[e] == SP
    requires forall k :: i <= k < e ==> data[k] != SP
    ensures SpaceFrom(data, i) == e
    decreases e - i
  {
    if i < e {
      SpaceAt(data, i + 1, e);
    }
  }

  lemma {:induction false} ColonAt(data: seq<byte>, lo: nat, s: nat, i: nat)
    requires lo < s <= i < |data| && data[s] == COLON
    requires forall k :: s < k <= i ==> data[k] != COLON
    ensures ColonBefore(data, lo, i) == s
    decreases i - s
  {
    if s < i {
      ColonAt(data, lo, s, i - 1);
    }
  }

  /** A CONNECT request line for `host` and `port`, HTTP version 1.`minor`,
      with the blank line somewhere in `tail`'s end. */
  function ConnectLine(host: seq<byte>, port: nat, minor: byte, tail: seq<byte>): seq<byte>
  {
    ConnectPrefix() + host + [COLON] + Dec(port) + HttpVersion() + [minor] + tail
  }

  /** Where the parts of a request line sit. */
  lemma {:induction false} ConnectLineLayout(host: seq<byte>, port: nat, minor: byte, tail: seq<byte>)
    requires |tail| >= 4 && tail[|tail| - 4..] == BlankLine()
    ensures var data, sep := ConnectLine(host, port, minor, tail), 8 + |host|;
      var end := sep + 1 + |Dec(port)|;
      && end + 10 <= |data| && data[..8] == ConnectPrefix() && data[|data| - 4..] == BlankLine()
      && data[8..sep] == host && data[sep] == COLON && data[sep + 1 .. end] == Dec(port)
      && data[end .. end + 8] == HttpVersion()
  {
    var data := ConnectLine(host, port, minor, tail);
    var d := Dec(port);
    var sep := 8 + |host|;
    var end := sep + 1 + |d|;
    assert data == ConnectPrefix() + host + [COLON] + d + HttpVersion() + [minor] + tail;
    assert data[..8] == ConnectPrefix();
    assert data[|data| - 4..] == tail[|tail| - 4..];
    assert data[8..sep] == host;
    assert data[sep + 1 .. end] == d;
    assert data[end .. end + 8] == HttpVersion();
  }

  /** The two scans stop at the space after the port digits and at the
      colon before them, when the host holds no space. */
  lemma {:induction false} ScansAt(data: seq<byte>, host: seq<byte>, port: nat, sep: nat, end: nat)
    requires 8 < sep < end < |data| && data[end] == SP && data[sep] == COLON
    requires data[8..sep] == host && forall k :: 0 <= k < |host| ==> host[k] != SP
    requires data[sep + 1 .. end] == Dec(port)
    ensures SpaceFrom(data, 9) == end && ColonBefore(data, 8, end) == sep
  {
    forall k | 9 <= k < end
      ensures data[k] != SP
    {
      if k < sep {
        assert data[k] == host[k - 8];
      } else if k > sep {
        assert data[k] == Dec(port)[k - sep - 1];
      }
    }
    SpaceAt(data, 9, end);
    forall k | sep < k <= end
      ensures data[k] != COLON
    {
      if k < end {
        assert data[k] == Dec(port)[k - sep - 1];
      }
    }
    ColonAt(data, 8, sep, end);
  }

  /** The host and port fields read back. */
  lemma {:induction false} FieldsAt(data: seq<byte>, host: seq<byte>, port: nat, sep: nat, end: nat)
    requires 8 < sep < end < |data|
    requires data[8..sep] == host && |host| <= 127 && forall k :: 0 <= k < |host| ==> host[k] != 0
    requires data[sep + 1 .. end] == Dec(port) && 1 <= port <= 65535
    ensures ConnectFields(data, sep, end) == Some(HostPort(host, port))
  {
    assert Strlen(data[8..sep]) == |host|;
    AtoiDec(port);
  }

  /** A request line long enough, with a host of 1 to 127 bytes holding no
      space and no NUL (colons are allowed: the port follows the last one)
      and a port in 1..65535, parses back to that host and port. */
  lemma {:induction false} ConnectRoundTrip(host: seq<byte>, port: nat, minor: byte, tail: seq<byte>)
    requires 1 <= |host| <= 127 && forall k :: 0 <= k < |host| ==> host[k] != SP && host[k] != 0
    requires 1 <= port <= 65535
    requires |tail| >= 4 && tail[|tail| - 4..] == BlankLine()
    requires |ConnectLine(host, port, minor, tail)| > 25
    ensures ConnectRequest(ConnectLine(host, port, minor, tail)) == Some(HostPort(host, port))
  {
    var data := ConnectLine(host, port, minor, tail);
    var sep := 8 + |host|;
    var end := sep + 1 + |Dec(port)|;
    ConnectLineLayout(host, port, minor, tail);
    assert ConnectFramed(data) && VersionAt(data, end);
    assert data[end] == HttpVersion()[0] == SP;
    ScansAt(data, host, port, sep, end);
    FieldsAt(data, host, port, sep, end);
  }

  /** The header `HandleClientRead` queues for a CONNECT request: a
      host-name header. */
  function ConnectHeader(hp: HostPort): (h: seq<byte>)
    requires |hp.host| <= 127 && 1 <= hp.port <= 65535
    ensures h == Remote.WireHeader(Remote.Target(Remote.ATYP_DOMAIN, hp.host, hp.port))
  {
    [Remote.ATYP_DOMAIN, |hp.host| as byte] + hp.host + BE16(hp.port)
  }

  /** Whatever CONNECT request the local side accepts, the server accepts
      the header it sends, whatever follows it, with the same host and
      port. */
  lemma {:induction false} ConnectHeaderAccepted(data: seq<byte>, rest: seq<byte>)
    requires ConnectRequest(data).Some?
    ensures var hp := ConnectRequest(data).value;
      Remote.DecodeHeader(ConnectHeader(hp) + rest)
        == Remote.Accepted(Remote.Target(Remote.ATYP_DOMAIN, hp.host, hp.port), 4 + |hp.host|)
  {
    var hp := ConnectRequest(data).value;
    Remote.DecodeWireHeader(Remote.Target(Remote.ATYP_DOMAIN, hp.host, hp.port), rest);
  }

  // ---------------------------------------------------------------------
  // The relay

  /** `step_`. */
  datatype Step = Init | WaitHdr | Connect | Transport | Terminate

  /** `protocol_`: which reply the application gets once connected. The
      CONNECT branch assigns a tag PROTOCOL_HTTP that the enumeration of
      local.h does not define; it is modelled as `Http`. */
  datatype Protocol = NoProtocol | Socks5 | Http

  /** A `LocalClient` as its callbacks see it: the step and protocol;
      whether the connection to the remote server exists; the pending
      buffer `target_cached_`; the busy flags and read flags; the bytes
      written to the application and to the remote server; `sent`, the
      plain bytes handed to Encrypt; and `forwarded`, the header and every
      application byte after the handshake, which the codec must be handed
      exactly once, in order. */
  datatype LocalRelay = LocalRelay(step: Step, protocol: Protocol, connected: bool, cached: Option<seq<byte>>,
                                   clientBusy: bool, targetBusy: bool, clientRead: bool, targetRead: bool,
                                   toClient: seq<byte>, toTarget: seq<byte>, sent: seq<byte>, forwarded: seq<byte>)

  function Pending(r: LocalRelay): seq<byte>
  {
    if r.cached.Some? then r.cached.value else []
  }

  /** A new relay after `Startup`. */
  const Started := LocalRelay(Init, NoProtocol, false, None, false, false, true, false, [], [], [], [])

  /** Before the connect nothing is pending or handed to the codec; while
      connecting the header and what followed it are pending; afterwards
      nothing is; the codec has been handed a prefix of `forwarded` and the
      rest is pending; a busy application side has remote reads
      disabled. */
  ghost predicate LocalInv(r: LocalRelay)
  {
    && (r.step == Init ==> r.protocol == NoProtocol && !r.connected && !r.clientBusy)
    && (r.step == WaitHdr ==> r.protocol == Socks5 && !r.connected && !r.clientBusy)
    && (r.step == Init || r.step == WaitHdr ==> r.cached.None? && r.sent == [] && r.forwarded == [] && r.toTarget == [])
    && (r.step == Connect ==> r.connected && r.protocol != NoProtocol && r.cached.Some? && r.sent == [] && r.toTarget == [])
    && (r.step == Transport ==> r.connected && r.protocol != NoProtocol && r.cached.None?)
    && (r.step != Init && r.step != WaitHdr && r.step != Terminate ==> r.sent + Pending(r) == r.forwarded)
    && (r.clientBusy ==> !r.targetRead)
  }

  /** `Cleanup`. */
  function Terminated(r: LocalRelay): (r': LocalRelay)
    ensures r'.step == Terminate
  {
    r.(step := Terminate)
  }

  /** `ConnectTarget` with the header to send queued. */
  function Connecting(r: LocalRelay, header: seq<byte>): LocalRelay
  {
    r.(step := Connect, connected := true, targetRead := true, cached := Some(header), forwarded := header)
  }

  /** STEP_INIT: a SOCKS5 greeting of at least 3 bytes is answered with
      `METHOD_REPLY`, a shorter one terminates; a CONNECT request queues the
      host-name header and connects; anything else terminates. */
  function Greeting(r: LocalRelay, data: seq<byte>): (g: LocalRelay)
    requires |data| > 0
    ensures g.targetBusy == r.targetBusy && g.clientBusy == r.clientBusy
  {
    if data[0] == SOCKS5_VERSION then
      if |data| < 3 then Terminated(r)
      else r.(step := WaitHdr, protocol := Socks5, toClient := r.toClient + METHOD_REPLY)
    else
      var hp := ConnectRequest(data);
      if hp.None? then Terminated(r) else Connecting(r.(protocol := Http), ConnectHeader(hp.value))
  }

  /** STEP_WAITHDR: an accepted request queues everything from its address
      type on and connects. */
  function Request(r: LocalRelay, data: seq<byte>): LocalRelay
  {
    if Socks5Request(data) then Connecting(r, data[3..]) else Terminated(r)
  }

  /** `HandleClientRead` given what Encrypt returned (only used in
      TRANSPORT). */
  function ClientRead(r: LocalRelay, data: seq<byte>, cret: CryptoResult, encoded: seq<byte>): LocalRelay
    requires r.step == Init ==> |data| > 0
  {
    match r.step
    case Init => Greeting(r, data)
    case WaitHdr => Request(r, data)
    case Connect => r.(cached := Some(Pending(r) + data), forwarded := r.forwarded + data)
    case Transport =>
      if cret != CryptoOk then Terminated(r)
      else r.(toTarget := r.toTarget + encoded, sent := r.sent + data, forwarded := r.forwarded + data)
    case Terminate => r
  }

  /** The reply the application gets once the remote server is reached. */
  function Reply(p: Protocol): seq<byte>
  {
    if p == Socks5 then SOCKS5_REPLY else HttpReply()
  }

  /** `HandleTargetReady` given what Encrypt returned for the pending
      buffer: TRANSPORT, the pending bytes handed to the codec and their
      encoding sent, and the reply for the protocol queued. */
  function TargetReady(r: LocalRelay, cret: CryptoResult, encoded: seq<byte>): LocalRelay
  {
    var r1 := r.(step := Transport, cached := None);
    if cret != CryptoOk then Terminated(r1)
    else r1.(toTarget := r.toTarget + encoded, sent := r.sent + Pending(r), toClient := r.toClient + Reply(r.protocol))
  }

  /** `HandleTargetRead` given what Decrypt returned and whether the
      application output is busy after the write. */
  function TargetRead(r: LocalRelay, cret: CryptoResult, decoded: seq<byte>, busy: bool): LocalRelay
  {
    if cret == CryptoNeedMore then r
    else if cret != CryptoOk then Terminated(r)
    else
      var r1 := r.(toClient := r.toClient + decoded);
      if busy then r1.(clientBusy := true, targetRead := false) else r1
  }

  function ClientEmpty(r: LocalRelay): LocalRelay
  {
    if r.step == Transport && r.clientBusy then r.(clientBusy := false, targetRead := true) else r
  }

  function TargetEmpty(r: LocalRelay): LocalRelay
  {
    if r.step == Transport && r.targetBusy then r.(targetBusy := false, clientRead := true) else r
  }

  // ----- the invariant is kept by every callback

  lemma StartedInv()
    ensures LocalInv(Started) && Started.step == Init
  {
  }

  lemma {:induction false} ClientReadInv(r: LocalRelay, data: seq<byte>, cret: CryptoResult, encoded: seq<byte>)
    requires LocalInv(r) && r.step != Terminate && (r.step == Init ==> |data| > 0)
    ensures LocalInv(ClientRead(r, data, cret, encoded))
  {
    if r.step == Connect {
      assert r.sent + (Pending(r) + data) == (r.sent + Pending(r)) + data;
    } else if r.step == Transport && cret == CryptoOk {
      assert r.sent + data + [] == (r.sent + []) + data;
    } else if r.step == Init || r.step == WaitHdr {
      var r' := ClientRead(r, data, cret, encoded);
      if r'.step == Connect {
        assert [] + Pending(r') == r'.forwarded;
      }
    }
  }

  lemma {:induction false} TargetReadyInv(r: LocalRelay, cret: CryptoResult, encoded: seq<byte>)
    requires LocalInv(r) && r.step == Connect
    ensures LocalInv(TargetReady(r, cret, encoded))
  {
    assert r.sent + Pending(r) + [] == r.forwarded;
  }

  lemma {:induction false} TargetReadInv(r: LocalRelay, cret: CryptoResult, decoded: seq<byte>, busy: bool)
    requires LocalInv(r) && r.step != Terminate && r.connected
    ensures LocalInv(TargetRead(r, cret, decoded, busy))
  {
  }

  lemma {:induction false} ClientEmptyInv(r: LocalRelay)
    requires LocalInv(r) && r.step != Terminate
    ensures LocalInv(ClientEmpty(r))
  {
  }

  // ----- what the callbacks do

  /** A SOCKS5 greeting: at least 3 bytes gets the method reply and waits
      for the request; fewer terminates. */
  lemma {:induction false} GreetingAnswered(r: LocalRelay, data: seq<byte>)
    requires r.step == Init && |data| > 0 && data[0] == SOCKS5_VERSION
    ensures |data| < 3 <==> Greeting(r, data).step == Terminate
    ensures |data| >= 3 ==> Greeting(r, data).step == WaitHdr && Greeting(r, data).toClient == r.toClient + METHOD_REPLY
  {
  }

  /** What the local side queues for the server is a header the server
      accepts: for a CONNECT request always, for a SOCKS5 request exactly
      when its port is not zero, with the requested address and port. */
  lemma {:induction false} QueuedHeaderAccepted(r: LocalRelay, data: seq<byte>, rest: seq<byte>)
    requires r.step == Init ==> |data| > 0
    requires r.step == Init || r.step == WaitHdr
    requires ClientRead(r, data, CryptoOk, []).step == Connect
    ensures r.step == Init ==>
              ConnectRequest(data).Some?
              && Remote.DecodeHeader(Pending(ClientRead(r, data, CryptoOk, [])) + rest).Accepted?
              && Remote.DecodeHeader(Pending(ClientRead(r, data, CryptoOk, [])) + rest).target
                 == Remote.Target(Remote.ATYP_DOMAIN, ConnectRequest(data).value.host, ConnectRequest(data).value.port)
    ensures r.step == WaitHdr ==>
              Socks5Request(data) && Pending(ClientRead(r, data, CryptoOk, [])) == data[3..]
              && (Remote.DecodeHeader(data[3..]).Accepted? <==> ReadBE16(data, RequestLength(data).value - 2) != 0)
  {
    if r.step == Init {
      ConnectHeaderAccepted(data, rest);
    } else {
      Socks5RequestIsHeader(data);
    }
  }

  /** Connected: the pending bytes go through the codec once, nothing is
      pending after, and the application gets the reply of its protocol;
      an Encrypt failure terminates. */
  lemma {:induction false} ReadyFlushesPending(r: LocalRelay, encoded: seq<byte>)
    requires LocalInv(r) && r.step == Connect
    ensures var r' := TargetReady(r, CryptoOk, encoded);
      r'.step == Transport && r'.cached.None? && r'.sent == r.forwarded && r'.toTarget == encoded
      && r'.toClient == r.toClient + (if r.protocol == Socks5 then SOCKS5_REPLY else HttpReply())
    ensures TargetReady(r, CryptoError, encoded).step == Terminate
  {
    assert [] + Pending(r) == r.forwarded;
  }

  /** In transport the codec has been handed exactly the forwarded bytes. */
  lemma {:induction false} TransportForwardsAll(r: LocalRelay)
    requires LocalInv(r) && r.step == Transport
    ensures r.sent == r.forwarded
  {
    assert r.sent + [] == r.sent;
  }

  /** Outside TRANSPORT neither drain re-enables reads. */
  lemma DrainOnlyInTransport(r: LocalRelay)
    requires r.step != Transport
    ensures ClientEmpty(r) == r && TargetEmpty(r) == r
  {
  }

  /** No callback sets `target_busy_`, which starts false ... */
  lemma {:induction false} TargetBusyNeverSet(r: LocalRelay, data: seq<byte>, cret: CryptoResult, encoded: seq<byte>)
    requires r.step == Init ==> |data| > 0
    ensures !Started.targetBusy
    ensures ClientRead(r, data, cret, encoded).targetBusy == r.targetBusy
    ensures ClientEmpty(r).targetBusy == r.targetBusy && Terminated(r).targetBusy == r.targetBusy
  {
  }

  lemma {:induction false} TargetBusyNeverSetByTarget(r: LocalRelay, cret: CryptoResult, encoded: seq<byte>,
                                                      decoded: seq<byte>, busy: bool)
    ensures TargetReady(r, cret, encoded).targetBusy == r.targetBusy
    ensures TargetRead(r, cret, decoded, busy).targetBusy == r.targetBusy
  {
  }

  /** ... so `HandleTargetEmpty` never acts. */
  lemma TargetEmptyIdle(r: LocalRelay)
    requires !r.targetBusy
    ensures TargetEmpty(r) == r
  {
  }

  lemma {:induction false} TargetEmptyInv(r: LocalRelay)
    requires LocalInv(r) && r.step != Terminate
    ensures LocalInv(TargetEmpty(r))
  {
  }

  /** A NEED_MORE decrypt changes nothing; an error terminates; a busy
      application output stops remote reads until it drains. */
  lemma {:induction false} TargetReadSteps(r: LocalRelay, decoded: seq<byte>)
    requires r.step == Transport
    ensures TargetRead(r, CryptoNeedMore, decoded, true) == r
    ensures TargetRead(r, CryptoError, decoded, true).step == Terminate
    ensures TargetRead(r, CryptoOk, decoded, true).clientBusy && !TargetRead(r, CryptoOk, decoded, true).targetRead
    ensures ClientEmpty(TargetRead(r, CryptoOk, decoded, true)).targetRead
  {
  }

  // ---------------------------------------------------------------------

  /** The `LocalClient` object over a codec from `CryptoCreator`. The
      connect to the remote server's address is left to the environment. */
  class LocalClient {
    const crypto: Codec
    /** The codec class's static helper buffer. */
    const helper: HelperBuffer
    var step: Step
    var protocol: Protocol
    var connected: bool
    var targetCached: Option<seq<byte>>
    var clientBusy: bool
    var targetBusy: bool
    var clientRead: bool
    var targetRead: bool
    var toClient: seq<byte>
    var toTarget: seq<byte>
    ghost var sent: seq<byte>
    ghost var forwarded: seq<byte>

    ghost function State(): LocalRelay
      reads this
    {
      LocalRelay(step, protocol, connected, targetCached, clientBusy, targetBusy, clientRead, targetRead,
                 toClient, toTarget, sent, forwarded)
    }

    ghost predicate Valid()
      reads this, CodecRepr(crypto)
    {
      CodecValid(crypto) && LocalInv(State())
    }

    /** The constructor followed by `Startup`. */
    constructor(crypto: Codec, helper: HelperBuffer)
      requires CodecValid(crypto)
      ensures Valid() && State() == Started && this.crypto == crypto && this.helper == helper
    {
      this.crypto := crypto;
      this.helper := helper;
      step, protocol, connected, targetCached := Init, NoProtocol, false, None;
      clientBusy, targetBusy := false, false;
      clientRead, targetRead := true, false;
      toClient, toTarget, sent, forwarded := [], [], [], [];
    }

    method Cleanup()
      modifies this
      ensures State() == Terminated(old(State()))
    {
      step := Terminate;
    }

    method ConnectTarget(header: seq<byte>)
      modifies this
      ensures State() == Connecting(old(State()), header)
    {
      step, connected, targetRead := Connect, true, true;
      targetCached := Some(header);
      forwarded := header;
    }

    /** `HandleClientRead`; the application's first read is not empty. */
    method HandleClientRead(buf: seq<byte>)
      requires Valid() && step != Terminate && (step == Init ==> |buf| > 0)
      modifies this, CodecRepr(crypto), helper
      ensures Valid()
      ensures State() == ClientRead(old(State()), buf, CryptoOk, old(Encoded(crypto, buf)))
    {
      if step == Transport {
        var cret, encoded := CodecEncrypt(crypto, helper, buf);
        Encrypted(buf, cret, encoded);
      } else {
        Handshake(buf);
      }
    }

    /** STEP_TRANSPORT of `HandleClientRead` once Encrypt has returned. */
    method Encrypted(buf: seq<byte>, cret: CryptoResult, encoded: seq<byte>)
      requires LocalInv(State()) && step == Transport
      modifies this
      ensures LocalInv(State()) && State() == ClientRead(old(State()), buf, cret, encoded)
    {
      ClientReadInv(State(), buf, cret, encoded);
      if cret != CryptoOk {
        Cleanup();
        return;
      }
      toTarget := toTarget + encoded;
      sent := sent + buf;
      forwarded := forwarded + buf;
    }

    /** The other steps of `HandleClientRead`. */
    method Handshake(data: seq<byte>)
      requires LocalInv(State()) && step != Transport && step != Terminate && (step == Init ==> |data| > 0)
      modifies this
      ensures LocalInv(State()) && State() == ClientRead(old(State()), data, CryptoOk, [])
    {
      ClientReadInv(State(), data, CryptoOk, []);
      if step == Init {
        Greet(data);
      } else if step == WaitHdr {
        if !Socks5Request(data) {
          Cleanup();
          return;
        }
        ConnectTarget(data[3..]);
      } else {
        targetCached := Some(targetCached.value + data);
        forwarded := forwarded + data;
      }
    }

    /** STEP_INIT of `HandleClientRead`. */
    method Greet(data: seq<byte>)
      requires |data| > 0
      modifies this
      ensures State() == Greeting(old(State()), data)
    {
      if data[0] == SOCKS5_VERSION {
        if |data| < 3 {
          Cleanup();
          return;
        }
        step, protocol := WaitHdr, Socks5;
        toClient := toClient + METHOD_REPLY;
      } else {
        var hp := ParseConnect(data);
        if hp.None? {
          Cleanup();
          return;
        }
        protocol := Http;
        ConnectTarget(ConnectHeader(hp.value));
      }
    }

    method HandleClientEmpty()
      requires Valid() && step != Terminate
      modifies this
      ensures Valid() && State() == ClientEmpty(old(State()))
    {
      ClientEmptyInv(State());
      if step == Transport && clientBusy {
        clientBusy := false;
        targetRead := true;
      }
    }

    /** An EOF or error on either side. */
    method HandleClose()
      requires Valid() && step != Terminate
      modifies this
      ensures State() == Terminated(old(State()))
    {
      Cleanup();
    }

    /** `HandleTargetReady`: the connect completes while connecting. */
    method HandleTargetReady()
      requires Valid() && step == Connect
      modifies this, CodecRepr(crypto), helper
      ensures Valid()
      ensures State() == TargetReady(old(State()), CryptoOk, old(Encoded(crypto, Pending(State()))))
    {
      var buf := targetCached.value;
      var cret, encoded := CodecEncrypt(crypto, helper, buf);
      Ready(cret, encoded);
    }

    /** `HandleTargetReady` once Encrypt has returned. */
    method Ready(cret: CryptoResult, encoded: seq<byte>)
      requires LocalInv(State()) && step == Connect
      modifies this
      ensures LocalInv(State()) && State() == TargetReady(old(State()), cret, encoded)
    {
      TargetReadyInv(State(), cret, encoded);
      var buf := targetCached.value;
      step := Transport;
      targetCached := None;
      if cret != CryptoOk {
        Cleanup();
        return;
      }
      Deliver(buf, encoded);
    }

    /** The writes of `HandleTargetReady` after a successful Encrypt. */
    method Deliver(buf: seq<byte>, encoded: seq<byte>)
      modifies this
      ensures State() == old(State()).(toTarget := old(toTarget) + encoded, sent := old(sent) + buf,
                                       toClient := old(toClient) + Reply(protocol))
    {
      toTarget := toTarget + encoded;
      sent := sent + buf;
      if protocol == Socks5 {
        toClient := toClient + SOCKS5_REPLY;
      } else {
        toClient := toClient + HttpReply();
      }
    }

    method HandleTargetRead(buf: seq<byte>, busy: bool)
      requires Valid() && step != Terminate && connected
      modifies this, CodecRepr(crypto), helper
      ensures Valid()
      ensures State() == TargetRead(old(State()), old(Decoded(crypto, buf)).0, OutBytes(old(Decoded(crypto, buf)).1), busy)
    {
      var cret, decoded := CodecDecrypt(crypto, helper, buf);
      Decrypted(cret, decoded, busy);
    }

    /** `HandleTargetRead` once Decrypt has returned. */
    method Decrypted(cret: CryptoResult, decoded: Option<seq<byte>>, busy: bool)
      requires LocalInv(State()) && step != Terminate && connected
      requires cret == CryptoOk ==> decoded.Some?
      modifies this
      ensures LocalInv(State()) && State() == TargetRead(old(State()), cret, OutBytes(decoded), busy)
    {
      TargetReadInv(State(), cret, OutBytes(decoded), busy);
      if cret == CryptoNeedMore {
        return;
      }
      if cret != CryptoOk {
        Cleanup();
        return;
      }
      toClient := toClient + decoded.value;
      if busy {
        clientBusy := true;
        targetRead := false;
      }
    }

    method HandleTargetEmpty()
      requires Valid() && step != Terminate && connected
      modifies this
      ensures Valid() && State() == TargetEmpty(old(State()))
    {
      TargetEmptyInv(State());
      if step == Transport && targetBusy {
        targetBusy := false;
        clientRead := true;
      }
    }
  }
}
