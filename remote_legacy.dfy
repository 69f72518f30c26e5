/** The older server relay of src/share/remote.cc, over the legacy codec
    `StreamBasicCrypto`. It shares the server's relay state and most of its
    callbacks; it differs in its header decode (it refuses an empty host
    name), in its busy test (an output queue longer than MAX_OUTPUT), in
    having no FLUSHING step (a closed target terminates at once) and in a
    Cleanup without a guard. */
module RemoteLegacy {
  import opened Bytes
  import opened KeyMaterial
  import opened StreamCodec
  import opened CryptoStream
  import opened LegacyStream
  import opened Remote

  /** The output queue length past which a side counts as busy. */
  const MAX_OUTPUT: nat := 512 * 1024

  /** The legacy header decode: at least 2 bytes; an unknown type has an
      address length of 0 and is refused with the short ones. */
  function LegacyDecodeHeader(data: seq<byte>): (r: HeaderResult)
    ensures r.Accepted? ==> WellFormed(r.target) && r.target.port > 0 && |r.target.addr| > 0
    ensures r.Accepted? ==> r.size == |WireHeader(r.target)| <= |data| && data[..r.size] == WireHeader(r.target)
  {
    if |data| < 2 then Rejected(HeaderSize)
    else
      var atyp := data[0];
      var addrPos: nat := if atyp == ATYP_DOMAIN then 2 else 1;
      var addrLen: nat :=
        if atyp == ATYP_IPV4 then 4 else if atyp == ATYP_DOMAIN then data[1] as nat else if atyp == ATYP_IPV6 then 16 else 0;
      if addrLen < 1 || addrPos + addrLen + 2 > |data| then Rejected(HeaderAddress)
      else DecodeAddress(data, atyp, addrPos, addrLen)
  }

  /** The legacy decode accepts exactly what the server's accepts, less a
      host name of length zero, and decodes it alike. */
  lemma {:induction false} LegacyAgreesWithServer(data: seq<byte>)
    ensures LegacyDecodeHeader(data).Accepted? <==>
              DecodeHeader(data).Accepted? && |DecodeHeader(data).target.addr| > 0
    ensures LegacyDecodeHeader(data).Accepted? ==> LegacyDecodeHeader(data) == DecodeHeader(data)
  {
  }

  /** The zero-length host name the server lets through and the legacy
      relay refuses. */
  lemma EmptyHostName()
    ensures DecodeHeader([ATYP_DOMAIN, 0, 0, 80]) == Accepted(Target(ATYP_DOMAIN, [], 80), 4)
    ensures LegacyDecodeHeader([ATYP_DOMAIN, 0, 0, 80]) == Rejected(HeaderAddress)
  {
    DecodeWireHeader(Target(ATYP_DOMAIN, [], 80), []);
    assert WireHeader(Target(ATYP_DOMAIN, [], 80)) == [ATYP_DOMAIN, 0, 0, 80];
  }

  /** What the legacy callbacks keep: the server's invariant, never
      FLUSHING, the client read callback always installed. */
  ghost predicate LegacyInv(r: Relay)
  {
    Inv(r) && r.step != Flushing && r.clientReadCb
  }

  /** `Cleanup` without the guard. */
  function Terminated(r: Relay): (r': Relay)
    ensures r'.step == Terminate
    ensures r.step != Terminate ==> r' == CleanedUp(r)
  {
    r.(step := Terminate)
  }

  /** `HandleClientRead` given Decrypt's buffer (none for a null return)
      and the target output length after the write. */
  function LegacyClientRead(r: Relay, decoded: Option<seq<byte>>, targetQueued: nat): Relay
  {
    if decoded.None? then Terminated(r)
    else if r.step == Init then
      var h := LegacyDecodeHeader(decoded.value);
      if h.Rejected? then Terminated(r) else Handshake(r, h, decoded.value)
    else Relayed(r, decoded.value, targetQueued > MAX_OUTPUT)
  }

  /** `HandleTargetRead` given the client output length after the write. */
  function LegacyTargetRead(r: Relay, encoded: seq<byte>, clientQueued: nat): Relay
  {
    TargetRead(r, CryptoOk, encoded, clientQueued > MAX_OUTPUT)
  }

  lemma {:induction false} LegacyClientReadInv(r: Relay, decoded: Option<seq<byte>>, targetQueued: nat)
    requires LegacyInv(r) && r.step != Terminate
    ensures LegacyInv(LegacyClientRead(r, decoded, targetQueued))
  {
    if decoded.Some? && r.step == Init && LegacyDecodeHeader(decoded.value).Accepted? {
      LegacyAgreesWithServer(decoded.value);
      ClientReadInv(r, CryptoOk, decoded.value, false);
    } else if decoded.Some? && r.step != Init {
      ClientReadInv(r, CryptoOk, decoded.value, targetQueued > MAX_OUTPUT);
    }
  }

  /** The legacy relay accepts the same first messages as the server
      except a zero-length host name, and then behaves the same. */
  lemma {:induction false} LegacyFirstRead(r: Relay, decoded: seq<byte>, targetQueued: nat)
    requires r.step == Init
    ensures LegacyClientRead(r, Some(decoded), targetQueued).step == Terminate <==>
              DecodeHeader(decoded).Rejected? || |DecodeHeader(decoded).target.addr| == 0
    ensures LegacyClientRead(r, Some(decoded), targetQueued).step != Terminate ==>
              LegacyClientRead(r, Some(decoded), targetQueued) == ClientRead(r, CryptoOk, decoded, false)
  {
    LegacyAgreesWithServer(decoded);
  }

  /** A side is busy only past MAX_OUTPUT queued bytes, not at it. */
  lemma {:induction false} LegacyBusyThreshold(r: Relay, data: seq<byte>, encoded: seq<byte>)
    requires r.step == Transport && !r.targetBusy && !r.clientBusy
    ensures !LegacyClientRead(r, Some(data), MAX_OUTPUT).targetBusy
    ensures LegacyClientRead(r, Some(data), MAX_OUTPUT + 1).targetBusy
    ensures !LegacyClientRead(r, Some(data), MAX_OUTPUT + 1).clientRead
    ensures !LegacyTargetRead(r, encoded, MAX_OUTPUT).clientBusy
    ensures LegacyTargetRead(r, encoded, MAX_OUTPUT + 1).clientBusy
    ensures !LegacyTargetRead(r, encoded, MAX_OUTPUT + 1).targetRead
  {
  }

  /** The server relay of remote.cc over a `StreamBasicCrypto`. */
  class LegacyRemoteClient {
    const crypto: StreamBasicCrypto
    const helper: HelperBuffer
    var step: Step
    var target: Option<Target>
    var targetCached: Option<seq<byte>>
    var clientBusy: bool
    var targetBusy: bool
    var clientRead: bool
    var targetRead: bool
    var toClient: seq<byte>
    var toTarget: seq<byte>
    ghost var payload: seq<byte>

    ghost function State(): Relay
      reads this
    {
      Relay(step, target, targetCached, clientBusy, targetBusy, clientRead, targetRead, true, toClient, toTarget, payload)
    }

    ghost predicate Valid()
      reads this, crypto
    {
      crypto.Valid() && LegacyInv(State())
    }

    /** What the codec's next Encrypt call sends for `buf`. */
    ghost function Encoded(buf: seq<byte>): seq<byte>
      reads crypto
    {
      EncryptOutput(LegacyKeystream(crypto.cipher), crypto.key, crypto.encodeIv, crypto.Encoder(), buf)
    }

    /** What the codec's next Decrypt call returns for `buf`: null (none)
        exactly on error. */
    ghost function Decoded(buf: seq<byte>): Option<seq<byte>>
      reads crypto
    {
      DecryptStep(LegacyKeystream(crypto.cipher), crypto.key, crypto.ivSize, crypto.Decoder(), buf).out
    }

    /** The constructor followed by `Startup`. */
    constructor(crypto: StreamBasicCrypto, helper: HelperBuffer)
      requires crypto.Valid()
      ensures Valid() && State() == Started && this.crypto == crypto && this.helper == helper
    {
      this.crypto := crypto;
      this.helper := helper;
      step, target, targetCached := Init, None, None;
      clientBusy, targetBusy := false, false;
      clientRead, targetRead := true, false;
      toClient, toTarget, payload := [], [], [];
    }

    /** `Cleanup`. */
    method Cleanup()
      modifies this
      ensures State() == Terminated(old(State()))
    {
      step := Terminate;
    }

    method HandleClientRead(buf: seq<byte>, targetQueued: nat)
      requires Valid() && step != Terminate
      modifies this, crypto, helper
      ensures Valid()
      ensures State() == LegacyClientRead(old(State()), old(Decoded(buf)), targetQueued)
    {
      var ret, decoded := crypto.Decrypt(buf, helper);
      Decrypted(decoded, targetQueued);
    }

    /** `HandleClientRead` once Decrypt has returned. */
    method Decrypted(decoded: Option<seq<byte>>, targetQueued: nat)
      requires LegacyInv(State()) && step != Terminate
      modifies this
      ensures LegacyInv(State()) && State() == LegacyClientRead(old(State()), decoded, targetQueued)
    {
      LegacyClientReadInv(State(), decoded, targetQueued);
      if decoded.None? {
        Cleanup();
        return;
      }
      if step == Init {
        ReadHeader(decoded.value);
      } else {
        Forward(decoded.value, targetQueued > MAX_OUTPUT);
      }
    }

    /** STEP_INIT of `HandleClientRead`. */
    method ReadHeader(data: seq<byte>)
      requires step == Init && targetCached.None?
      modifies this
      ensures State() == (var h := LegacyDecodeHeader(data); if h.Rejected? then Terminated(old(State())) else Handshake(old(State()), h, data))
    {
      var h := LegacyDecodeHeader(data);
      if h.Rejected? {
        Cleanup();
        return;
      }
      step, target, targetRead := Connect, Some(h.target), true;
      if h.size < |data| {
        targetCached := Some(data[h.size..]);
      }
      payload := data[h.size..];
    }

    /** The other steps of `HandleClientRead`. */
    method Forward(data: seq<byte>, busy: bool)
      requires step != Init
      modifies this
      ensures State() == Relayed(old(State()), data, busy)
    {
      if step == Connect {
        if targetCached.None? {
          targetCached := Some(data);
          assert [] + data == data;
        } else {
          targetCached := Some(targetCached.value + data);
        }
        payload := payload + data;
      } else {
        toTarget := toTarget + data;
        payload := payload + data;
        if busy {
          targetBusy := true;
          clientRead := false;
        }
      }
    }

    method HandleClientEmpty()
      requires Valid() && step != Terminate
      modifies this
      ensures Valid() && State() == ClientEmpty(old(State()))
    {
      ClientEmptyInv(State());
      if step == Transport && clientBusy {
        clientBusy := false;
        targetRead := true;
      }
    }

    /** A client EOF or error. */
    method HandleClientClose()
      requires Valid() && step != Terminate
      modifies this
      ensures State() == Terminated(old(State()))
    {
      Cleanup();
    }

    method HandleTargetReady()
      requires Valid() && step != Terminate && target.Some?
      modifies this
      ensures Valid() && State() == TargetReady(old(State()))
    {
      TargetReadyInv(State());
      step := Transport;
      if targetCached.Some? {
        toTarget := toTarget + targetCached.value;
        targetCached := None;
      } else {
        assert toTarget + [] == toTarget;
      }
    }

    /** `HandleTargetRead`; the legacy Encrypt never returns null. */
    method HandleTargetRead(buf: seq<byte>, clientQueued: nat)
      requires Valid() && step != Terminate && target.Some?
      modifies this, crypto, helper
      ensures Valid()
      ensures State() == LegacyTargetRead(old(State()), old(Encoded(buf)), clientQueued)
    {
      var ret, encoded := crypto.Encrypt(buf, helper);
      Encrypted(encoded, clientQueued);
    }

    /** `HandleTargetRead` once Encrypt has returned. */
    method Encrypted(encoded: seq<byte>, clientQueued: nat)
      requires LegacyInv(State()) && step != Terminate && target.Some?
      modifies this
      ensures LegacyInv(State()) && State() == LegacyTargetRead(old(State()), encoded, clientQueued)
    {
      TargetReadInv(State(), CryptoOk, encoded, clientQueued > MAX_OUTPUT);
      toClient := toClient + encoded;
      if clientQueued > MAX_OUTPUT {
        clientBusy := true;
        targetRead := false;
      }
    }

    method HandleTargetEmpty()
      requires Valid() && step != Terminate && target.Some?
      modifies this
      ensures Valid() && State() == TargetEmpty(old(State()))
    {
      TargetEmptyInv(State());
      if step == Transport && targetBusy {
        targetBusy := false;
        clientRead := true;
      }
    }

    /** A target EOF or error: there is no flushing here. */
    method HandleTargetClose()
      requires Valid() && step != Terminate && target.Some?
      modifies this
      ensures State() == Terminated(old(State()))
    {
      Cleanup();
    }
  }
}
