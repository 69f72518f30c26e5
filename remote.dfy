/** The server side of the tunnel, src/server/remote.cc: the target
    address header that opens every decoded stream (the ATYP / address /
    port layout of section 5 of RFC 1928), and `RemoteClient`, the relay
    between one tunnel client and the target it asks for. Each relay
    callback is a function on `Relay` (the object's state with its two
    bufferevents abstracted as write logs and read flags); the class
    methods are proved against those functions and the invariants and
    handler properties are proved about the functions. */
module Remote {
  import opened Bytes
  import opened KeyMaterial
  import opened CryptoStream
  import opened Creator

  const ATYP_IPV4: byte := 1
  const ATYP_DOMAIN: byte := 3
  const ATYP_IPV6: byte := 4

  /** A target address: its type, its address bytes (4 for IPv4, 16 for
      IPv6, a host name of at most 255 bytes) and its port. */
  datatype Target = Target(atyp: byte, addr: seq<byte>, port: nat)

  predicate WellFormed(t: Target)
  {
    && t.port < 0x1_0000
    && (|| (t.atyp == ATYP_IPV4 && |t.addr| == 4)
        || (t.atyp == ATYP_DOMAIN && |t.addr| < 256)
        || (t.atyp == ATYP_IPV6 && |t.addr| == 16))
  }

  /** The bytes of a header: the type, the length byte for a host name,
      the address, the port big-endian. */
  function WireHeader(t: Target): (w: seq<byte>)
    requires WellFormed(t)
    ensures |w| >= 4
  {
    [t.atyp] + (if t.atyp == ATYP_DOMAIN then [|t.addr| as byte] else []) + t.addr + BE16(t.port)
  }

  /** Why a header is refused: too short, unknown type, address or port
      past the data, port zero. */
  datatype HeaderError = HeaderSize | HeaderType | HeaderAddress | HeaderPort

  datatype HeaderResult = Accepted(target: Target, size: nat) | Rejected(why: HeaderError)

  /** The header decode of `HandleClientRead` in STEP_INIT. */
  function DecodeHeader(data: seq<byte>): (r: HeaderResult)
    ensures r.Accepted? ==> WellFormed(r.target) && r.target.port > 0
    ensures r.Accepted? ==> r.size == |WireHeader(r.target)| <= |data| && data[..r.size] == WireHeader(r.target)
  {
    if |data| < 4 then Rejected(HeaderSize)
    else
      var atyp := data[0];
      if atyp != ATYP_IPV4 && atyp != ATYP_DOMAIN && atyp != ATYP_IPV6 then Rejected(HeaderType)
      else
        var addrPos: nat := if atyp == ATYP_DOMAIN then 2 else 1;
        var addrLen: nat := if atyp == ATYP_IPV4 then 4 else if atyp == ATYP_DOMAIN then data[1] as nat else 16;
        DecodeAddress(data, atyp, addrPos, addrLen)
  }

  /** The rest of the decode once the address layout is known. */
  function DecodeAddress(data: seq<byte>, atyp: byte, addrPos: nat, addrLen: nat): (r: HeaderResult)
    requires |data| >= 2
    requires (atyp == ATYP_IPV4 && addrPos == 1 && addrLen == 4) || (atyp == ATYP_IPV6 && addrPos == 1 && addrLen == 16)
          || (atyp == ATYP_DOMAIN && addrPos == 2 && addrLen == data[1] as nat)
    requires data[0] == atyp
    ensures r.Accepted? ==> WellFormed(r.target) && r.target.port > 0
    ensures r.Accepted? ==> r.size == |WireHeader(r.target)| <= |data| && data[..r.size] == WireHeader(r.target)
  {
    var drainLen := addrPos + addrLen + 2;
    if drainLen > |data| then Rejected(HeaderAddress)
    else
      var port := ReadBE16(data, addrPos + addrLen);
      if port == 0 then Rejected(HeaderPort)
      else
        var t := Target(atyp, data[addrPos .. addrPos + addrLen], port);
        assert data[..drainLen] == WireHeader(t) by {
          BE16OfRead(data, addrPos + addrLen);
          assert data[..addrPos] == [atyp] + (if atyp == ATYP_DOMAIN then [|t.addr| as byte] else []);
          assert data[..drainLen] == data[..addrPos] + data[addrPos .. addrPos + addrLen] + data[addrPos + addrLen .. drainLen];
        }
        Accepted(t, drainLen)
  }

  /** Every well-formed header with a non-zero port is accepted, whatever
      follows it, and decodes to itself; the bytes after it are the rest. */
  lemma {:induction false} DecodeWireHeader(t: Target, rest: seq<byte>)
    requires WellFormed(t) && t.port > 0
    ensures DecodeHeader(WireHeader(t) + rest) == Accepted(t, |WireHeader(t)|)
  {
    var w := WireHeader(t);
    var data := w + rest;
    var addrPos: nat := if t.atyp == ATYP_DOMAIN then 2 else 1;
    assert data[0] == t.atyp;
    if t.atyp == ATYP_DOMAIN {
      assert data[1] == |t.addr| as byte;
    }
    assert data[addrPos .. addrPos + |t.addr|] == t.addr;
    ReadBE16OfBE16(t.port, data[..addrPos + |t.addr|], rest);
    assert data == data[..addrPos + |t.addr|] + BE16(t.port) + rest;
  }

  /** When the decode refuses a header, and why: fewer than 4 bytes, a
      type other than 1, 3 or 4, an address plus port running past the
      data, or port 0 — and it accepts otherwise. */
  lemma {:induction false} DecodeHeaderCases(data: seq<byte>)
    ensures |data| < 4 <==> DecodeHeader(data) == Rejected(HeaderSize)
    ensures |data| >= 4 && data[0] !in {ATYP_IPV4, ATYP_DOMAIN, ATYP_IPV6} <==> DecodeHeader(data) == Rejected(HeaderType)
    ensures |data| >= 4 && data[0] == ATYP_IPV4 ==>
              (DecodeHeader(data).Accepted? <==> |data| >= 7 && ReadBE16(data, 5) != 0)
    ensures |data| >= 4 && data[0] == ATYP_DOMAIN ==>
              (DecodeHeader(data).Accepted? <==> |data| >= 4 + data[1] as nat && ReadBE16(data, 2 + data[1] as nat) != 0)
    ensures |data| >= 4 && data[0] == ATYP_IPV6 ==>
              (DecodeHeader(data).Accepted? <==> |data| >= 19 && ReadBE16(data, 17) != 0)
    ensures DecodeHeader(data).Accepted? ==>
              DecodeHeader(data).target.atyp == data[0]
              && DecodeHeader(data).target.addr == data[DecodeHeader(data).size - 2 - |DecodeHeader(data).target.addr| .. DecodeHeader(data).size - 2]
              && DecodeHeader(data).target.port == ReadBE16(data, DecodeHeader(data).size - 2)
  {
    if DecodeHeader(data).Accepted? {
      var r := DecodeHeader(data);
      var w := WireHeader(r.target);
      assert data[..r.size] == w;
      var addrPos: nat := if r.target.atyp == ATYP_DOMAIN then 2 else 1;
      assert w[addrPos .. addrPos + |r.target.addr|] == r.target.addr;
      assert data[r.size - 2] == w[r.size - 2] && data[r.size - 1] == w[r.size - 1];
    }
  }

  // ---------------------------------------------------------------------
  // The relay

  /** `step_`. */
  datatype Step = Init | Connect | Transport | Flushing | Terminate

  /** A `RemoteClient` as its callbacks see it: the step; the target it
      connects to (none before the header); the pending buffer
      `target_cached_`; the two busy flags; whether each side's reads are
      enabled and whether the client read callback is installed; the bytes
      written to each side, in order; and `payload`, every decoded byte
      after the header, which the target must receive exactly once. */
  datatype Relay = Relay(step: Step, target: Option<Target>, cached: Option<seq<byte>>,
                         clientBusy: bool, targetBusy: bool, clientRead: bool, targetRead: bool, clientReadCb: bool,
                         toClient: seq<byte>, toTarget: seq<byte>, payload: seq<byte>)

  /** The pending buffer's bytes; a null buffer holds none. */
  function Pending(r: Relay): seq<byte>
  {
    if r.cached.Some? then r.cached.value else []
  }

  /** A new relay after `Startup`: client reads enabled. */
  const Started := Relay(Init, None, None, false, false, true, false, true, [], [], [])

  /** What every callback keeps: before the header nothing is pending or
      sent; afterwards the target has been sent a prefix of the payload
      and the rest is pending, and nothing is pending once transporting; a
      busy side has the opposite side's reads disabled; a flushing relay
      reads nothing from the client. */
  ghost predicate Inv(r: Relay)
  {
    && (r.step == Init ==> r.target.None? && r.cached.None? && r.toTarget == [] && r.payload == [] && !r.clientBusy && !r.targetBusy)
    && (r.step != Init && r.step != Terminate ==> r.target.Some? && r.toTarget + Pending(r) == r.payload)
    && (r.step == Transport ==> r.cached.None?)
    && (r.targetBusy ==> !r.clientRead)
    && (r.clientBusy ==> !r.targetRead)
    && (r.step == Flushing ==> !r.clientReadCb && !r.clientRead)
  }

  /** `Cleanup`: terminate, unless already terminated. */
  function CleanedUp(r: Relay): (r': Relay)
    ensures r'.step == Terminate
    ensures r.step == Terminate ==> r' == r
  {
    if r.step == Terminate then r else r.(step := Terminate)
  }

  /** STEP_INIT with the decoded bytes `data`: a refused header terminates;
      an accepted one starts the connect, and the bytes after it (if any)
      become the pending buffer. */
  function Handshake(r: Relay, h: HeaderResult, data: seq<byte>): Relay
    requires h.Accepted? ==> h.size <= |data|
  {
    match h
    case Rejected(_) => CleanedUp(r)
    case Accepted(t, size) =>
      r.(step := Connect, target := Some(t), targetRead := true,
         cached := if size < |data| then Some(data[size..]) else None, payload := data[size..])
  }

  /** After the header: while connecting the bytes join the pending
      buffer, afterwards they go to the target; a busy target output sets
      `target_busy_` and stops client reads. */
  function Relayed(r: Relay, data: seq<byte>, busy: bool): Relay
  {
    if r.step == Connect then r.(cached := Some(Pending(r) + data), payload := r.payload + data)
    else
      var r1 := r.(toTarget := r.toTarget + data, payload := r.payload + data);
      if busy then r1.(targetBusy := true, clientRead := false) else r1
  }

  /** `HandleClientRead` given what Decrypt returned and whether the
      target output is busy after the write. */
  function ClientRead(r: Relay, cret: CryptoResult, decoded: seq<byte>, busy: bool): Relay
  {
    if cret == CryptoNeedMore then r
    else if cret != CryptoOk then CleanedUp(r)
    else if r.step == Init then Handshake(r, DecodeHeader(decoded), decoded)
    else Relayed(r, decoded, busy)
  }

  /** `HandleClientEmpty`: the client output drained. */
  function ClientEmpty(r: Relay): Relay
  {
    if r.step == Flushing then CleanedUp(r)
    else if r.step == Transport && r.clientBusy then r.(clientBusy := false, targetRead := true)
    else r
  }

  /** `HandleTargetReady`: transport, and the pending buffer sent once. */
  function TargetReady(r: Relay): Relay
  {
    r.(step := Transport, toTarget := r.toTarget + Pending(r), cached := None)
  }

  /** `HandleTargetRead` given what Encrypt returned and whether the client
      output is busy after the write. */
  function TargetRead(r: Relay, cret: CryptoResult, encoded: seq<byte>, busy: bool): Relay
  {
    if cret != CryptoOk then CleanedUp(r)
    else
      var r1 := r.(toClient := r.toClient + encoded);
      if busy then r1.(clientBusy := true, targetRead := false) else r1
  }

  /** `HandleTargetEmpty`: the target output drained. */
  function TargetEmpty(r: Relay): Relay
  {
    if r.step == Transport && r.targetBusy then r.(targetBusy := false, clientRead := true) else r
  }

  /** `HandleTargetClose` given the length of the client output: with
      nothing left to send, terminate; otherwise flush it first, reading
      nothing more from the client. */
  function TargetClose(r: Relay, clientQueued: nat): Relay
  {
    if clientQueued == 0 then CleanedUp(r)
    else r.(step := Flushing, clientReadCb := false, clientRead := false)
  }

  // ----- the invariant is kept by every callback

  lemma StartedInv()
    ensures Inv(Started) && Started.step == Init
  {
  }

  lemma {:induction false} ClientReadInv(r: Relay, cret: CryptoResult, decoded: seq<byte>, busy: bool)
    requires Inv(r) && r.step != Terminate && r.clientReadCb
    ensures Inv(ClientRead(r, cret, decoded, busy))
  {
    if cret == CryptoOk && r.step == Init {
      var h := DecodeHeader(decoded);
      if h.Accepted? {
        assert decoded[h.size..] == decoded[h.size..];
      }
    } else if cret == CryptoOk && r.step == Connect {
      assert r.toTarget + (Pending(r) + decoded) == (r.toTarget + Pending(r)) + decoded;
    } else if cret == CryptoOk {
      assert r.toTarget + decoded == r.payload + decoded;
    }
  }

  lemma {:induction false} ClientEmptyInv(r: Relay)
    requires Inv(r) && r.step != Terminate
    ensures Inv(ClientEmpty(r))
  {
  }

  lemma {:induction false} TargetReadyInv(r: Relay)
    requires Inv(r) && r.step != Terminate && r.target.Some?
    ensures Inv(TargetReady(r))
  {
    assert r.toTarget + Pending(r) + [] == r.payload;
  }

  lemma {:induction false} TargetReadInv(r: Relay, cret: CryptoResult, encoded: seq<byte>, busy: bool)
    requires Inv(r) && r.step != Terminate && r.target.Some?
    ensures Inv(TargetRead(r, cret, encoded, busy))
  {
  }

  lemma {:induction false} TargetEmptyInv(r: Relay)
    requires Inv(r) && r.step != Terminate && r.target.Some?
    ensures Inv(TargetEmpty(r))
  {
  }

  lemma {:induction false} TargetCloseInv(r: Relay, clientQueued: nat)
    requires Inv(r) && r.step != Terminate && r.target.Some?
    ensures Inv(TargetClose(r, clientQueued))
  {
  }

  // ----- what the callbacks do

  /** A NEED_MORE decrypt changes nothing; any other failure terminates. */
  lemma DecryptFailure(r: Relay, cret: CryptoResult, decoded: seq<byte>, busy: bool)
    ensures ClientRead(r, CryptoNeedMore, decoded, busy) == r
    ensures cret == CryptoError ==> ClientRead(r, cret, decoded, busy).step == Terminate
  {
  }

  /** The first decoded bytes: a refused header terminates; an accepted
      one moves to CONNECT towards the decoded target, with the bytes
      after the header pending only if there are any. */
  lemma {:induction false} FirstRead(r: Relay, decoded: seq<byte>, busy: bool)
    requires r.step == Init
    ensures DecodeHeader(decoded).Rejected? ==> ClientRead(r, CryptoOk, decoded, busy).step == Terminate
    ensures DecodeHeader(decoded).Accepted? ==>
              var r' := ClientRead(r, CryptoOk, decoded, busy);
              var h := DecodeHeader(decoded);
              r'.step == Connect && r'.target == Some(h.target) && r'.targetRead
              && (r'.cached.Some? <==> h.size < |decoded|)
              && Pending(r') == decoded[h.size..] && r'.toTarget == r.toTarget
  {
  }

  /** While connecting, decoded bytes are appended to the pending buffer
      and nothing is sent. */
  lemma {:induction false} ReadWhileConnecting(r: Relay, decoded: seq<byte>, busy: bool)
    requires r.step == Connect
    ensures var r' := ClientRead(r, CryptoOk, decoded, busy);
      r'.step == Connect && r'.cached.Some? && Pending(r') == Pending(r) + decoded && r'.toTarget == r.toTarget
  {
  }

  /** Target ready: TRANSPORT, the pending bytes sent once, nothing
      pending; so a second ready sends nothing more. */
  lemma {:induction false} ReadySendsPendingOnce(r: Relay)
    ensures TargetReady(r).step == Transport && TargetReady(r).cached.None?
    ensures TargetReady(r).toTarget == r.toTarget + Pending(r)
    ensures TargetReady(TargetReady(r)).toTarget == TargetReady(r).toTarget
  {
    assert TargetReady(r).toTarget + [] == TargetReady(r).toTarget;
  }

  /** In transport every decoded byte goes to the target, all payload
      bytes in order: the target has received exactly the payload. */
  lemma {:induction false} TransportDeliversPayload(r: Relay)
    requires Inv(r) && r.step == Transport
    ensures r.toTarget == r.payload
  {
    assert r.toTarget + [] == r.toTarget;
  }

  /** Backpressure: a busy target output stops client reads and a drain in
      TRANSPORT restarts them; the same with the sides exchanged. */
  lemma {:induction false} Backpressure(r: Relay, decoded: seq<byte>, encoded: seq<byte>)
    requires r.step == Transport
    ensures ClientRead(r, CryptoOk, decoded, true).targetBusy && !ClientRead(r, CryptoOk, decoded, true).clientRead
    ensures TargetRead(r, CryptoOk, encoded, true).clientBusy && !TargetRead(r, CryptoOk, encoded, true).targetRead
    ensures r.targetBusy ==> !TargetEmpty(r).targetBusy && TargetEmpty(r).clientRead
    ensures r.clientBusy ==> !ClientEmpty(r).clientBusy && ClientEmpty(r).targetRead
  {
  }

  /** Target closed: with the client output empty it terminates; otherwise
      it flushes with client reads stopped, and the drain then
      terminates. */
  lemma {:induction false} CloseFlushes(r: Relay, clientQueued: nat)
    requires r.step != Terminate
    ensures clientQueued == 0 ==> TargetClose(r, clientQueued).step == Terminate
    ensures clientQueued > 0 ==>
              TargetClose(r, clientQueued).step == Flushing && !TargetClose(r, clientQueued).clientRead
              && !TargetClose(r, clientQueued).clientReadCb
              && ClientEmpty(TargetClose(r, clientQueued)).step == Terminate
  {
  }

  /** Outside TRANSPORT a drain re-enables no reads: the target drain
      changes nothing, and so does the client drain except in FLUSHING. */
  lemma DrainOnlyInTransport(r: Relay)
    requires r.step != Transport
    ensures TargetEmpty(r) == r
    ensures r.step != Flushing ==> ClientEmpty(r) == r
  {
  }

  /** `Cleanup` once terminated changes nothing. */
  lemma CleanupIdempotent(r: Relay)
    ensures CleanedUp(CleanedUp(r)) == CleanedUp(r)
  {
  }

  // ---------------------------------------------------------------------

  /** The `RemoteClient` object over a codec from `CryptoCreator`. Its two
      bufferevents are abstracted as the write logs and read flags of
      `Relay`; the DNS lookup and connect are left to the environment. */
  class RemoteClient {
    const crypto: Codec
    /** The codec class's static helper buffer. */
    const helper: HelperBuffer
    var step: Step
    var target: Option<Target>
    var targetCached: Option<seq<byte>>
    var clientBusy: bool
    var targetBusy: bool
    var clientRead: bool
    var targetRead: bool
    var clientReadCb: bool
    var toClient: seq<byte>
    var toTarget: seq<byte>
    ghost var payload: seq<byte>

    ghost function State(): Relay
      reads this
    {
      Relay(step, target, targetCached, clientBusy, targetBusy, clientRead, targetRead, clientReadCb, toClient, toTarget, payload)
    }

    ghost predicate Valid()
      reads this, CodecRepr(crypto)
    {
      CodecValid(crypto) && Inv(State())
    }

    /** The constructor followed by `Startup`. */
    constructor(crypto: Codec, helper: HelperBuffer)
      requires CodecValid(crypto)
      ensures Valid() && State() == Started && this.crypto == crypto && this.helper == helper
    {
      this.crypto := crypto;
      this.helper := helper;
      step, target, targetCached := Init, None, None;
      clientBusy, targetBusy := false, false;
      clientRead, targetRead, clientReadCb := true, false, true;
      toClient, toTarget, payload := [], [], [];
    }

    /** `Cleanup`. */
    method Cleanup()
      modifies this
      ensures State() == CleanedUp(old(State()))
    {
      if step == Terminate {
        return;
      }
      step := Terminate;
    }

    method HandleClientRead(buf: seq<byte>, busy: bool)
      requires Valid() && step != Terminate && clientReadCb
      modifies this, CodecRepr(crypto), helper
      ensures Valid()
      ensures State() == ClientRead(old(State()), old(Decoded(crypto, buf)).0, OutBytes(old(Decoded(crypto, buf)).1), busy)
    {
      var cret, decoded := CodecDecrypt(crypto, helper, buf);
      Decrypted(cret, decoded, busy);
    }

    /** `HandleClientRead` once Decrypt has returned. */
    method Decrypted(cret: CryptoResult, decoded: Option<seq<byte>>, busy: bool)
      requires Inv(State()) && step != Terminate && clientReadCb
      requires cret == CryptoOk ==> decoded.Some?
      modifies this
      ensures Inv(State()) && State() == ClientRead(old(State()), cret, OutBytes(decoded), busy)
    {
      ClientReadInv(State(), cret, OutBytes(decoded), busy);
      if cret == CryptoNeedMore {
        return;
      }
      if cret != CryptoOk {
        Cleanup();
        return;
      }
      if step == Init {
        ReadHeader(decoded.value);
      } else {
        Forward(decoded.value, busy);
      }
    }

    /** STEP_INIT of `HandleClientRead`. */
    method ReadHeader(data: seq<byte>)
      requires step == Init && targetCached.None?
      modifies this
      ensures State() == Handshake(old(State()), DecodeHeader(data), data)
    {
      var h := DecodeHeader(data);
      if h.Rejected? {
        Cleanup();
        return;
      }
      step, target, targetRead := Connect, Some(h.target), true;
      if h.size < |data| {
        targetCached := Some(data[h.size..]);
      }
      payload := data[h.size..];
    }

    /** The other steps of `HandleClientRead`. */
    method Forward(data: seq<byte>, busy: bool)
      requires step != Init
      modifies this
      ensures State() == Relayed(old(State()), data, busy)
    {
      if step == Connect {
        if targetCached.None? {
          targetCached := Some(data);
          assert [] + data == data;
        } else {
          targetCached := Some(targetCached.value + data);
        }
        payload := payload + data;
      } else {
        toTarget := toTarget + data;
        payload := payload + data;
        if busy {
          targetBusy := true;
          clientRead := false;
        }
      }
    }

    method HandleClientEmpty()
      requires Valid() && step != Terminate
      modifies this
      ensures Valid() && State() == ClientEmpty(old(State()))
    {
      ClientEmptyInv(State());
      if step == Flushing {
        Cleanup();
      } else if step == Transport && clientBusy {
        clientBusy := false;
        targetRead := true;
      }
    }

    method HandleClientClose()
      requires Valid() && step != Terminate
      modifies this
      ensures Valid() && State() == CleanedUp(old(State()))
    {
      Cleanup();
    }

    method HandleTargetReady()
      requires Valid() && step != Terminate && target.Some?
      modifies this
      ensures Valid() && State() == TargetReady(old(State()))
    {
      TargetReadyInv(State());
      step := Transport;
      if targetCached.Some? {
        toTarget := toTarget + targetCached.value;
        targetCached := None;
      } else {
        assert toTarget + [] == toTarget;
      }
    }

    method HandleTargetRead(buf: seq<byte>, busy: bool)
      requires Valid() && step != Terminate && target.Some?
      modifies this, CodecRepr(crypto), helper
      ensures Valid()
      ensures State() == TargetRead(old(State()), CryptoOk, old(Encoded(crypto, buf)), busy)
    {
      var cret, encoded := CodecEncrypt(crypto, helper, buf);
      Encrypted(cret, encoded, busy);
    }

    /** `HandleTargetRead` once Encrypt has returned. */
    method Encrypted(cret: CryptoResult, encoded: seq<byte>, busy: bool)
      requires Inv(State()) && step != Terminate && target.Some?
      modifies this
      ensures Inv(State()) && State() == TargetRead(old(State()), cret, encoded, busy)
    {
      TargetReadInv(State(), cret, encoded, busy);
      if cret != CryptoOk {
        Cleanup();
        return;
      }
      toClient := toClient + encoded;
      if busy {
        clientBusy := true;
        targetRead := false;
      }
    }

    method HandleTargetEmpty()
      requires Valid() && step != Terminate && target.Some?
      modifies this
      ensures Valid() && State() == TargetEmpty(old(State()))
    {
      TargetEmptyInv(State());
      if step == Transport && targetBusy {
        targetBusy := false;
        clientRead := true;
      }
    }

    method HandleTargetClose(clientQueued: nat)
      requires Valid() && step != Terminate && target.Some?
      modifies this
      ensures Valid() && State() == TargetClose(old(State()), clientQueued)
    {
      TargetCloseInv(State(), clientQueued);
      if clientQueued == 0 {
        Cleanup();
      } else {
        step := Flushing;
        clientReadCb := false;
        clientRead := false;
      }
    }
  }
}
