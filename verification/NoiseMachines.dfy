/** The handshake objects: state updated in place, messages written at fixed offsets into the caller's buffer. */
module NoiseMachines {
  import opened Base
  import opened Wire
  import opened Noise
  import H = Handshake

  class SymmetricState {
    var h: bytes
    var ck: bytes
    var k: bytes
    var n: u64
    var hasKey: bool

    function Value(): Symmetric
      reads this
    {
      Symmetric(h, ck, k, n, hasKey)
    }

    constructor (c: Suite)
      ensures Value() == Start(c)
    {
      var name := c.hash(PROTOCOL_NAME);
      h, ck, k, n, hasKey := name, name, Zeros(32), 0, false;
    }

    method MixHash(c: Suite, data: bytes)
      modifies `h
      ensures Value() == Noise.MixHash(c, old(Value()), data)
    {
      h := c.hash(h + data);
    }

    method MixKey(c: Suite, ikm: bytes)
      modifies this
      ensures Value() == Noise.MixKey(c, old(Value()), ikm)
    {
      var (o1, o2) := Hkdf2(c, ck, ikm);
      ck, k, n, hasKey := o1, o2, 0, true;
    }

    method EncryptAndHash(c: Suite, pt: bytes) returns (out: bytes)
      requires Ready(Value())
      modifies this
      ensures (Value(), out) == Noise.EncryptAndHash(c, old(Value()), pt)
    {
      if hasKey {
        out := c.seal(k, Nonce(n), h, pt);
        n := n + 1;
      } else {
        out := pt;
      }
      MixHash(c, out);
    }

    method DecryptAndHash(c: Suite, ct: bytes) returns (r: Result<bytes, Error>)
      requires Ready(Value())
      modifies this
      ensures match Noise.DecryptAndHash(c, old(Value()), ct)
              case Err(e) => r == Err(e) && Value() == old(Value())
              case Ok((after, pt)) => r == Ok(pt) && Value() == after
    {
      if hasKey {
        var pt := c.open(k, Nonce(n), h, ct);
        if pt.None? {
          return Err(DecryptFailed);
        }
        n := n + 1;
        r := Ok(pt.value);
      } else {
        r := Ok(ct);
      }
      MixHash(c, ct);
    }
  }

  // ---------- buffers ----------

  function Patch(s: bytes, off: nat, data: bytes): (r: bytes)
    requires off + |data| <= |s|
    ensures |r| == |s|
    ensures forall i :: 0 <= i < |s| ==> r[i] == if off <= i < off + |data| then data[i - off] else s[i]
  {
    s[..off] + data + s[off + |data|..]
  }

  method CopyInto(out: array<byte>, off: nat, data: bytes)
    requires off + |data| <= out.Length
    modifies out
    ensures out[..] == Patch(old(out[..]), off, data)
  {
    for i := 0 to |data|
      invariant forall j :: 0 <= j < out.Length ==> out[j] == if off <= j < off + i then data[j - off] else old(out[j])
    {
      out[off + i] := data[i];
    }
  }

  lemma Assembled1(s: bytes, index: u32, eph: bytes, encStatic: bytes, encTime: bytes)
    requires |s| == 144 && |eph| == 32 && |encStatic| == 48 && |encTime| == 24
    ensures var t := Patch(Patch(Patch(s, 8, eph), 40, encStatic), 88, encTime);
            Patch(Patch(t, 0, [1, 0, 0, 0]), 4, U32Bytes(index))[..112] == H.Body1(index, eph, encStatic, encTime)
  {
  }

  lemma Assembled2(s: bytes, sender: u32, receiver: u32, eph: bytes, encNothing: bytes)
    requires |s| == 92 && |eph| == 32 && |encNothing| == 16
    ensures var t := Patch(Patch(Patch(s, 0, [2, 0, 0, 0]), 4, U32Bytes(sender)), 8, U32Bytes(receiver));
            Patch(Patch(t, 12, eph), 44, encNothing)[..60] == H.Body2(sender, receiver, eph, encNothing)
  {
  }

  lemma MacsAppended(s: bytes, m1: bytes, cookie: bytes)
    requires |m1| == |cookie| == 16 && |s| >= 32
    ensures Patch(Patch(s, |s| - 32, m1), |s| - 16, cookie) == s[..|s| - 32] + m1 + cookie
  {
  }

  // The two proofs that end every message.
  method AppendMacs(c: Suite, out: array<byte>, sigKey: bytes, cookie: bytes)
    requires Laws(c) && out.Length >= 32 && |cookie| == H.MAC_BYTES
    modifies out
    ensures out[..] == H.WithMacs(c, old(out[..out.Length - 32]), sigKey, cookie)
  {
    var m1 := c.mac1(sigKey, out[..out.Length - 32]);
    MacsAppended(out[..], m1, cookie);
    CopyInto(out, out.Length - 32, m1);
    CopyInto(out, out.Length - 16, cookie);
  }

  // What a failed initiation leaves in the buffer: the ephemeral key is there, the sealed static key as well unless
  // the first agreement failed, and nothing else was written.
  ghost predicate AbandonedInitiation(c: Suite, i: H.InitiatorState, ephSecret: bytes, before: bytes, after: bytes)
    requires |before| == |after| == H.MSG1_SIZE
  {
    var public, es := FromSecret(c, ephSecret).public, Agree(c, ephSecret, i.responder);
    && after[..8] == before[..8] && after[8..40] == public
    && after[40..88] == (if es.Err? then before[40..88]
                         else EncryptAndHash(c, MixKey(c, MixHash(c, i.sym, public), es.value), i.own.public).1)
    && after[88..] == before[88..]
  }

  lemma PatchedParts(s: bytes, eph: bytes, encStatic: bytes)
    requires |s| == H.MSG1_SIZE && |eph| == 32 && |encStatic| == 48
    ensures var t := Patch(s, 8, eph);
            && t[..8] == s[..8] && t[8..40] == eph && t[40..88] == s[40..88] && t[88..] == s[88..]
            && var u := Patch(t, 40, encStatic);
            u[..8] == s[..8] && u[8..40] == eph && u[40..88] == encStatic && u[88..] == s[88..]
  {
  }

  // A failed response has written its header and the ephemeral key.
  lemma PatchedResponse(s: bytes, sender: u32, receiver: u32, eph: bytes)
    requires |s| == H.MSG2_SIZE && |eph| == 32
    ensures var t := Patch(Patch(Patch(s, 0, [2, 0, 0, 0]), 4, U32Bytes(sender)), 8, U32Bytes(receiver));
            Patch(t, 12, eph) == [2, 0, 0, 0] + U32Bytes(sender) + U32Bytes(receiver) + eph + s[44..]
  {
  }

  // ---------- the initiator ----------

  class Initiator {
    var eph: KeyPair
    var re: bytes
    const own: KeyPair
    const responder: bytes
    const sym: SymmetricState

    function Value(): H.InitiatorState
      reads this, sym
    {
      H.InitiatorState(eph, own, re, responder, sym.Value())
    }

    constructor (c: Suite, own: KeyPair, responder: bytes)
      ensures Value() == H.NewInitiator(c, own, responder) && fresh(sym)
    {
      this.own, this.responder := own, responder;
      eph, re := FromSecret(c, Zeros(32)), Zeros(32);
      var s := new SymmetricState(c);
      s.MixHash(c, responder);
      sym := s;
    }

    // The initiation, into a 144-byte buffer; the fresh ephemeral secret is the caller's.
    method WriteInitiation(c: Suite, out: array<byte>, ephSecret: bytes, senderIndex: u32, timestamp: u64,
                           sigKey: bytes, cookie: bytes) returns (r: Result<(), Error>)
      requires Laws(c) && Ready(sym.Value()) && |own.public| == DHLEN && |cookie| == H.MAC_BYTES
      requires out.Length == H.MSG1_SIZE
      modifies `eph, sym, out
      ensures var (m, after) := H.WriteInitiation(c, old(Value()), ephSecret, senderIndex, timestamp, sigKey, cookie);
              && Value() == after
              && (if m.Ok? then r == Ok(()) && out[..] == m.value
                  else r == Err(m.error) && AbandonedInitiation(c, old(Value()), ephSecret, old(out[..]), out[..]))
    {
      ghost var blank := out[..];
      eph := FromSecret(c, ephSecret);
      H.PublicLength(c, ephSecret);
      PatchedParts(blank, eph.public, Zeros(48));
      CopyInto(out, 8, eph.public);
      sym.MixHash(c, eph.public);

      var es := Agree(c, eph.secret, responder);
      if es.Err? {
        return Err(es.error);
      }
      sym.MixKey(c, es.value);
      H.EncryptedLength(c, sym.Value(), own.public);
      var encStatic := sym.EncryptAndHash(c, own.public);
      PatchedParts(blank, eph.public, encStatic);
      CopyInto(out, 40, encStatic);

      var ss := Agree(c, own.secret, responder);
      if ss.Err? {
        return Err(ss.error);
      }
      sym.MixKey(c, ss.value);
      H.EncryptedLength(c, sym.Value(), U64Bytes(timestamp));
      var encTime := sym.EncryptAndHash(c, U64Bytes(timestamp));
      CopyInto(out, 88, encTime);

      CopyInto(out, 0, [1, 0, 0, 0]);
      CopyInto(out, 4, U32Bytes(senderIndex));
      Assembled1(blank, senderIndex, eph.public, encStatic, encTime);
      AppendMacs(c, out, sigKey, cookie);
      return Ok(());
    }

    // The response: mac1 before anything else.
    method ReadResponse(c: Suite, msg: bytes, sigKey: bytes) returns (r: Result<(), Error>)
      requires Ready(sym.Value()) && |msg| == H.MSG2_SIZE
      modifies `re, sym
      ensures (r, Value()) == H.ReadResponse(c, old(Value()), msg, sigKey)
    {
      if c.mac1(sigKey, msg[..60]) != msg[60..76] {
        return Err(Mac1Failed);
      }
      re := msg[12..44];
      sym.MixHash(c, re);
      var ee := Agree(c, eph.secret, re);
      if ee.Err? {
        return Err(ee.error);
      }
      sym.MixKey(c, ee.value);
      var se := Agree(c, own.secret, re);
      if se.Err? {
        return Err(se.error);
      }
      sym.MixKey(c, se.value);
      var nothing := sym.DecryptAndHash(c, msg[44..60]);
      if nothing.Err? {
        return Err(nothing.error);
      }
      return Ok(());
    }

    method Finalize(c: Suite) returns (r: H.HandshakeResult)
      ensures r == H.FinalizeInitiator(c, Value())
    {
      var (c1, c2) := Hkdf2(c, sym.ck, []);
      r := H.HandshakeResult(c1, c2, sym.h);
    }
  }

  // ---------- the responder ----------

  class Responder {
    const own: KeyPair
    var eph: KeyPair
    var re: bytes
    var remote: bytes
    const sym: SymmetricState

    function Value(): H.ResponderState
      reads this, sym
    {
      H.ResponderState(own, eph, re, remote, sym.Value())
    }

    constructor (c: Suite, own: KeyPair)
      ensures Value() == H.NewResponder(c, own) && fresh(sym)
    {
      this.own := own;
      eph, re, remote := FromSecret(c, Zeros(32)), Zeros(32), Zeros(32);
      var s := new SymmetricState(c);
      s.MixHash(c, own.public);
      sym := s;
    }

    method ReadInitiation(c: Suite, msg: bytes, sigKey: bytes) returns (r: Result<H.InitiationInfo, Error>)
      requires Laws(c) && Ready(sym.Value()) && |msg| == H.MSG1_SIZE
      modifies `re, `remote, sym
      ensures (r, Value()) == H.ReadInitiation(c, old(Value()), msg, sigKey)
    {
      if c.mac1(sigKey, msg[..112]) != msg[112..128] {
        return Err(Mac1Failed);
      }
      re := msg[8..40];
      sym.MixHash(c, re);
      var es := Agree(c, own.secret, re);
      if es.Err? {
        return Err(es.error);
      }
      sym.MixKey(c, es.value);
      var peer := sym.DecryptAndHash(c, msg[40..88]);
      if peer.Err? {
        return Err(peer.error);
      }
      remote := peer.value;
      var ss := Agree(c, own.secret, remote);
      if ss.Err? {
        return Err(ss.error);
      }
      sym.MixKey(c, ss.value);
      ghost var before := sym.Value();
      var time := sym.DecryptAndHash(c, msg[88..112]);
      if time.Err? {
        return Err(time.error);
      }
      H.DecryptedLength(c, before, msg[88..112]);
      return Ok(H.InitiationInfo(U32Of(msg[4..8]), remote, U64Of(time.value)));
    }

    // The response, into a 92-byte buffer; the receiver index echoes the initiator's.
    method WriteResponse(c: Suite, out: array<byte>, ephSecret: bytes, senderIndex: u32, receiverIndex: u32,
                         sigKey: bytes, cookie: bytes) returns (r: Result<(), Error>)
      requires Laws(c) && Ready(sym.Value()) && |cookie| == H.MAC_BYTES
      requires out.Length == H.MSG2_SIZE
      modifies `eph, sym, out
      ensures var (m, after) := H.WriteResponse(c, old(Value()), ephSecret, senderIndex, receiverIndex, sigKey, cookie);
              && Value() == after
              && (if m.Ok? then r == Ok(()) && out[..] == m.value
                  else
                    && r == Err(m.error)
                    && out[..] == [2, 0, 0, 0] + U32Bytes(senderIndex) + U32Bytes(receiverIndex)
                                  + FromSecret(c, ephSecret).public + old(out[44..]))
    {
      ghost var blank := out[..];
      eph := FromSecret(c, ephSecret);
      H.PublicLength(c, ephSecret);
      PatchedResponse(blank, senderIndex, receiverIndex, eph.public);
      CopyInto(out, 0, [2, 0, 0, 0]);
      CopyInto(out, 4, U32Bytes(senderIndex));
      CopyInto(out, 8, U32Bytes(receiverIndex));
      CopyInto(out, 12, eph.public);
      sym.MixHash(c, eph.public);

      var ee := Agree(c, eph.secret, re);
      if ee.Err? {
        return Err(ee.error);
      }
      sym.MixKey(c, ee.value);
      var se := Agree(c, eph.secret, remote);
      if se.Err? {
        return Err(se.error);
      }
      sym.MixKey(c, se.value);
      H.EncryptedLength(c, sym.Value(), []);
      var encNothing := sym.EncryptAndHash(c, []);
      CopyInto(out, 44, encNothing);
      Assembled2(blank, senderIndex, receiverIndex, eph.public, encNothing);
      AppendMacs(c, out, sigKey, cookie);
      return Ok(());
    }

    method Finalize(c: Suite) returns (r: H.HandshakeResult)
      ensures r == H.FinalizeResponder(c, Value())
    {
      var (c1, c2) := Hkdf2(c, sym.ck, []);
      r := H.HandshakeResult(c2, c1, sym.h);
    }
  }
}
