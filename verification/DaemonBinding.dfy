/** What each kind of datagram does to the node, spelled out: when a binding frame binds, what is counted, what a
    sweep frees. */
module DaemonBinding {
  import opened Base
  import opened Wire
  import opened Noise
  import opened DaemonSlots
  import H = Handshake
  import Codec
  import Certs

  // One more refusal, counted in all and under its class.
  predicate Refused(n: Node, after: Node, kind: nat)
    requires kind < |n.rejects|
  {
    after == n.(rejected := n.rejected + 1, rejects := n.rejects[kind := n.rejects[kind] + 1])
  }

  // The certificate vouches for the session's peer now: a sound chain, in force, naming the peer's key, and signed by
  // its holder over the session's hash.
  predicate Convinces(c: Config, wire: bytes, sig: bytes, hash: bytes, peer: bytes, now: u64) {
    var cert := Certs.ParseCert(wire);
    && cert.Ok?
    && Certs.ValidateCertChain(cert.value, c.trusted, c.verify).Ok?
    && cert.value.notBefore <= now < cert.value.notAfter
    && cert.value.kexPubkey == peer
    && c.verify(0x05, hash, sig, cert.value.sigPubkey)
  }

  predicate Unbound(n: Node, idx: nat)
    requires Sized(n)
  {
    && idx < HS_SLOTS && n.sessions[idx].Some? && n.sessions[idx].value.local == idx
    && !n.sessions[idx].value.bound && n.peers[idx].Some?
  }

  // A frame of length, certificate and signature binds the session exactly when the certificate convinces, and then
  // changes nothing but that and the record; otherwise one refusal is counted and nothing else happens. What follows
  // the signature is ignored.
  lemma BindsIff(c: Config, n: Node, wire: bytes, sig: bytes, tail: bytes, idx: nat, now: u64)
    requires Sized(n) && Unbound(n, idx) && |wire| <= 0xffff && |sig| == 64
    ensures var s, peer := n.sessions[idx].value, n.peers[idx].value;
            var after := OnBinding(c, n, [|wire| / 256, |wire| % 256] + wire + sig + tail, idx, now);
            if Convinces(c, wire, sig, s.hash, peer, now)
            then after == n.(sessions := n.sessions[idx := Some(s.(bound := true))],
                             certs := n.certs + [(Certs.ParseCert(wire).value.sigPubkey, wire)])
            else Refused(n, after, 0)
  {
    hide Certs.ParseCert, Certs.ValidateCertChain;
    var plain := [|wire| / 256, |wire| % 256] + wire + sig + tail;
    TwoBytes(|wire|);
    U16RoundTrip(|wire|);
    assert plain[..2] == U16Bytes(|wire|);
    assert plain[2..2 + |wire|] == wire && plain[2 + |wire|..2 + |wire| + 64] == sig;
  }

  // A frame too short for what its length says is refused.
  lemma ShortFrameRefused(c: Config, n: Node, plain: bytes, idx: nat, now: u64)
    requires Sized(n) && Unbound(n, idx)
    requires |plain| < 66 || |plain| < 66 + 256 * (plain[0] as int) + plain[1]
    ensures Refused(n, OnBinding(c, n, plain, idx, now), 0)
  {
    if |plain| >= 66 {
      var len := 256 * (plain[0] as int) + plain[1];
      TwoBytes(len);
      U16RoundTrip(len);
      assert plain[..2] == U16Bytes(len);
    }
  }

  // ---------- every event ----------

  // What a handshake datagram leaves, given its result and the handshake table after it.
  predicate Settled(n: Node, res: Result<nat, HandshakeError>, hs: seq<Option<HsSession>>, later: u64, after: Node)
    requires Sized(n)
  {
    match res
    case Ok(slot) =>
      && slot < HS_SLOTS && |hs| == HS_SLOTS && hs[slot].Some?
      && var h := hs[slot].value;
      after == n.(hs := hs,
                  sessions := n.sessions[slot := Some(Session(slot, h.sendKey, h.recvKey, h.hash, later, false))],
                  peers := n.peers[slot := Some(h.peerStatic)])
    case Err(TableFull) => after == n.(rejects := n.rejects[44 := n.rejects[44] + 1])
    case Err(_) => after == n
  }

  lemma SettleSpelled(n: Node, res: Result<nat, HandshakeError>, hs: seq<Option<HsSession>>, later: u64)
    requires Sized(n) && OneCommitted(n.hs, res, hs) && (res.Ok? ==> n.sessions[res.value].None?)
    ensures Settled(n, res, hs, later, Settle(n, res, hs, later))
  {
  }

  // A handshake datagram: a committed slot gets its session and its peer key, a full table is counted, and any other
  // failure leaves no trace.
  lemma HandshakeStep(c: Config, n: Node, pkt: bytes, m: Meeting)
    requires Laws(c.suite) && Inv(n) && pkt != [] && pkt[0] == 1
    ensures var (res, hs) := ProcessDatagram(c, n.hs, pkt, m);
            var after := Step(c, n, Datagram(pkt, m));
            Settled(n, res, hs, m.later, after)
  {
    OneCommit(c, n.hs, pkt, m);
    AdmissionNeverFails(c, n, pkt, m);
    var (res, hs) := ProcessDatagram(c, n.hs, pkt, m);
    assert Sized(n);
    hide Laws, ProcessDatagram, Inv, Settle, Settled, OneCommitted, OnTransport;
    SettleSpelled(n, res, hs, m.later);
  }

  // A transport datagram to a session: undecrypted it is counted; to a bound session it counts what the envelope path
  // reports; to an unbound one it is a binding frame. Nobody's index changes nothing.
  lemma TransportStep(c: Config, n: Node, idx: u32, pkt: bytes, m: Meeting)
    requires Laws(c.suite) && Inv(n) && |pkt| >= 32 && pkt[0] == 4 && pkt[4..8] == U32Bytes(idx)
    ensures var after := Step(c, n, Datagram(pkt, m));
            if idx >= 512 || n.sessions[idx].None? then after == n
            else if m.plaintext.None? then Refused(n, after, 1)
            else if n.sessions[idx].value.bound then
              if m.verdict.Some? then Refused(n, after, m.verdict.value) else after == n
            else
              && idx < HS_SLOTS && n.sessions[idx].value.local == idx
              && after == OnBinding(c, n, m.plaintext.value, idx, m.now)
  {
    U32RoundTrip(idx);
    AllLocalInRange(n);
    if idx < SESSION_SLOTS && n.sessions[idx].Some? {
      LocalInRange(n, idx);
    }
    hide Laws, Inv, OnHandshake, OnBinding;
  }

  // Nothing else has any effect.
  lemma OtherDatagramsIgnored(c: Config, n: Node, pkt: bytes, m: Meeting)
    requires Laws(c.suite) && Inv(n)
    requires pkt == [] || pkt[0] !in {1, 4} || (pkt[0] == 4 && |pkt| < 32)
    ensures Step(c, n, Datagram(pkt, m)) == n
  {
    AllLocalInRange(n);
    hide Laws, Inv, OnHandshake, OnBinding;
  }

  predicate Idle(n: Node, now: u64, i: nat)
    requires Sized(n)
  {
    i < HS_SLOTS && n.hs[i].Some? && now > n.hs[i].value.created + 900_000
  }

  ghost function IdleBelow(n: Node, now: u64, k: nat): set<nat>
    requires Sized(n)
  {
    set i: nat | i < k && Idle(n, now, i)
  }

  // A sweep frees exactly the slots made more than fifteen minutes ago, in all three places, and counts them.
  lemma SweepStep(c: Config, n: Node, now: u64)
    requires Laws(c.suite) && Inv(n)
    ensures var after := Step(c, n, Sweep(now));
            && (forall i :: 0 <= i < HS_SLOTS ==>
                  && after.hs[i] == (if Idle(n, now, i) then None else n.hs[i])
                  && after.sessions[i] == (if Idle(n, now, i) then None else n.sessions[i])
                  && after.peers[i] == (if Idle(n, now, i) then None else n.peers[i]))
            && after.released == n.released + |IdleBelow(n, now, HS_SLOTS)|
            && after.certs == n.certs && after.rejected == n.rejected && after.rejects == n.rejects
  {
    FreedCount(n, now, HS_SLOTS);
    hide Laws, Inv;
  }

  lemma {:induction false} FreedCount(n: Node, now: u64, k: nat)
    requires Sized(n) && k <= HS_SLOTS
    ensures |Freed(n.hs, now, k)| == |IdleBelow(n, now, k)|
  {
    if k == 0 {
      assert IdleBelow(n, now, 0) == {};
    } else {
      FreedCount(n, now, k - 1);
      IdleNext(n, now, k);
      assert Stale(n.hs[k - 1], now) <==> Idle(n, now, k - 1);
      hide Stale, Idle, IdleBelow;
    }
  }

  lemma IdleNext(n: Node, now: u64, k: nat)
    requires Sized(n) && 0 < k <= HS_SLOTS
    ensures IdleBelow(n, now, k) == IdleBelow(n, now, k - 1) + if Idle(n, now, k - 1) then {k - 1} else {}
  {
    hide Idle;
  }

  // ---------- an honest peer binds ----------

  // The initiator's side of a handshake with this node: its message, and the keys it ends with given the reply.
  function Hello(c: Config, own: bytes, eph: bytes, index: u32, time: u64, cookie: bytes)
    : (Result<bytes, Error>, H.InitiatorState)
  {
    H.WriteInitiation(c.suite, H.NewInitiator(c.suite, FromSecret(c.suite, own), FromSecret(c.suite, c.secret).public),
                      eph, index, time, c.sigKey, cookie)
  }

  function KeysFrom(c: Config, i1: H.InitiatorState, reply: bytes): Option<H.HandshakeResult> {
    if |reply| != H.MSG2_SIZE then None else
    var (read, i2) := H.ReadResponse(c.suite, i1, reply, c.sigKey);
    if read.Ok? then Some(H.FinalizeInitiator(c.suite, i2)) else None
  }

  // None of the four agreements hits the identity point.
  predicate AllAgree(c: Config, own: bytes, eph: bytes, ephSecret: bytes) {
    && Agree(c.suite, eph, FromSecret(c.suite, c.secret).public).Ok?
    && Agree(c.suite, own, FromSecret(c.suite, c.secret).public).Ok?
    && Agree(c.suite, ephSecret, FromSecret(c.suite, eph).public).Ok?
    && Agree(c.suite, ephSecret, FromSecret(c.suite, own).public).Ok?
  }

  // An honest initiation to a node with a free slot: the node seats the peer there, unbound, and sends a reply from
  // which the peer gets the session's keys, crossed, and its hash.
  lemma HonestPeerSeated(c: Config, n: Node, own: bytes, eph: bytes, index: u32, time: u64, cookie: bytes, m: Meeting)
    requires Laws(c.suite) && Inv(n) && FirstFree(n.hs) < HS_SLOTS
    requires |c.secret| == |own| == |eph| == |m.ephSecret| == DHLEN && |cookie| == H.MAC_BYTES
    requires AllAgree(c, own, eph, m.ephSecret) && forall out :: m.accepts(out)
    ensures var (msg, i1) := Hello(c, own, eph, index, time, cookie);
            && msg.Ok? && |msg.value| == H.MSG1_SIZE
            && var slot, after := FirstFree(n.hs), Step(c, n, Datagram(msg.value, m));
            && Unbound(after, slot) && after.peers[slot] == Some(FromSecret(c.suite, own).public)
            && var answer := Answer(c, msg.value, slot, m.ephSecret, m.now);
            && answer.Some? && KeysFrom(c, i1, answer.value.0).Some?
            && var s, keys := after.sessions[slot].value, KeysFrom(c, i1, answer.value.0).value;
            s.sendKey == keys.recvKey && s.recvKey == keys.sendKey && s.hash == keys.hash
  {
    hide Laws, Answer, ProcessDatagram, Inv, Agree, FromSecret, OnDatagram;
    hide H.WriteInitiation, H.ReadResponse, H.FinalizeInitiator, H.NewInitiator, FirstFree, Settled, Unbound;
    InvSized(n);
    AnswerToHonest(c, own, eph, index, time, cookie, FirstFree(n.hs), m.ephSecret, m.now);
    HonestPeerAdmitted(c, n.hs, own, eph, index, time, cookie, m);
    var msg := Hello(c, own, eph, index, time, cookie).0;
    HandshakeStep(c, n, msg.value, m);
    Seated(n, FirstFree(n.hs), ProcessDatagram(c, n.hs, msg.value, m).1, m.later, Step(c, n, Datagram(msg.value, m)));
  }

  lemma InvSized(n: Node)
    requires Inv(n)
    ensures Sized(n)
  {
  }

  lemma Seated(n: Node, slot: nat, hs: seq<Option<HsSession>>, later: u64, after: Node)
    requires Inv(n) && Inv(after) && Settled(n, Ok(slot), hs, later, after)
    ensures Sized(after) && Unbound(after, slot)
    ensures slot < |hs| && hs[slot].Some?
    ensures var h, s := hs[slot].value, after.sessions[slot].value;
            && after.peers[slot] == Some(h.peerStatic)
            && s.sendKey == h.sendKey && s.recvKey == h.recvKey && s.hash == h.hash
  {
  }

  // And then it binds: the frame the peer sends through its session makes the session bound exactly when the
  // certificate convinces for the peer's own key and the hash the peer itself holds.
  lemma HonestPeerBinds(c: Config, n: Node, own: bytes, eph: bytes, index: u32, time: u64, cookie: bytes, m: Meeting,
                        wire: bytes, sig: bytes, pkt: bytes, m2: Meeting)
    requires Laws(c.suite) && Inv(n) && FirstFree(n.hs) < HS_SLOTS
    requires |c.secret| == |own| == |eph| == |m.ephSecret| == DHLEN && |cookie| == H.MAC_BYTES
    requires AllAgree(c, own, eph, m.ephSecret) && forall out :: m.accepts(out)
    requires |wire| <= 0xffff && |sig| == 64
    requires |pkt| >= 32 && pkt[0] == 4 && pkt[4..8] == U32Bytes(FirstFree(n.hs))
    requires m2.plaintext == Some([|wire| / 256, |wire| % 256] + wire + sig)
    ensures var (msg, i1) := Hello(c, own, eph, index, time, cookie);
            && msg.Ok? && |msg.value| == H.MSG1_SIZE
            && var slot, seated := FirstFree(n.hs), Step(c, n, Datagram(msg.value, m));
            && var answer := Answer(c, msg.value, slot, m.ephSecret, m.now);
            && answer.Some? && KeysFrom(c, i1, answer.value.0).Some?
            && var bound := Step(c, seated, Datagram(pkt, m2));
            && bound.sessions[slot].Some?
            && (bound.sessions[slot].value.bound <==>
                  Convinces(c, wire, sig, KeysFrom(c, i1, answer.value.0).value.hash, FromSecret(c.suite, own).public,
                            m2.now))
  {
    hide Laws, Answer, Inv, Agree, FromSecret, OnDatagram, OnBinding, Convinces, KeysFrom, Hello, FirstFree;
    HonestPeerSeated(c, n, own, eph, index, time, cookie, m);
    var msg := Hello(c, own, eph, index, time, cookie).0;
    var seated := Step(c, n, Datagram(msg.value, m));
    InvSized(seated);
    TransportStep(c, seated, FirstFree(n.hs), pkt, m2);
    BindsIff(c, seated, wire, sig, [], FirstFree(n.hs), m2.now);
    assert [|wire| / 256, |wire| % 256] + wire + sig + [] == [|wire| / 256, |wire| % 256] + wire + sig;
  }
}
