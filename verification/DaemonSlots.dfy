/** The daemon's sixteen handshake slots and what shadows them: the session table and the peers' static
    keys share their index space, and every refusal is counted by class. */
module DaemonSlots {
  import opened Base
  import opened Wire
  import opened Noise
  import H = Handshake
  import Codec
  import Certs

  const HS_SLOTS := 16
  const SESSION_SLOTS := 512
  const T_HS_IDLE_MS := 900_000
  const HEADER_SIZE := 16

  // Refusal classes: three of the daemon's own, one for a full handshake table, the rest for what the
  // envelope path reports.
  const CLASSES := 45
  const BINDING := 0
  const TRANSPORT := 1
  const HANDSHAKE_FULL := 44

  type EnvelopeClass = k: nat | TRANSPORT < k < HANDSHAKE_FULL witness 2

  datatype HandshakeError = NotInitiation | TableFull | Refused | SendFailed

  datatype HsSession = HsSession(sendKey: bytes, recvKey: bytes, hash: bytes, peerStatic: bytes, created: u64)

  datatype Session = Session(local: nat, sendKey: bytes, recvKey: bytes, hash: bytes, epoch: u64, bound: bool)

  // The node's keys and trust, fixed for its life.
  datatype Config = Config(suite: Suite, secret: bytes, sigKey: bytes, trusted: seq<bytes>, verify: Certs.Verifier)

  // What one datagram meets: randomness, the socket, the clock (read twice by a handshake), the outcome of
  // opening a transport packet, and the envelope path's verdict.
  datatype Meeting = Meeting(ephSecret: bytes, accepts: bytes -> bool, now: u64, later: u64,
                             plaintext: Option<bytes>, verdict: Option<EnvelopeClass>)

  datatype Node = Node(
    hs: seq<Option<HsSession>>, sessions: seq<Option<Session>>, peers: seq<Option<bytes>>,
    certs: seq<(bytes, bytes)>, rejected: nat, rejects: seq<nat>, released: nat)

  // ---------- the responder's table ----------

  function FirstFree<T>(slots: seq<Option<T>>): (i: nat)
    ensures i <= |slots|
    ensures forall k :: 0 <= k < i ==> slots[k].Some?
    ensures i < |slots| ==> slots[i].None?
  {
    if slots == [] then 0
    else if slots[0].None? then 0
    else 1 + FirstFree(slots[1..])
  }

  // What the responder does with an initiation: the bytes it would send and the session it would keep.
  function Answer(c: Config, pkt: bytes, slot: u32, ephSecret: bytes, now: u64): Option<(bytes, HsSession)>
    requires Laws(c.suite) && |pkt| == H.MSG1_SIZE
  {
    var r0 := H.NewResponder(c.suite, FromSecret(c.suite, c.secret));
    var (info, r1) := H.ReadInitiation(c.suite, r0, pkt, c.sigKey);
    if info.Err? then None else
    var (out, r2) := H.WriteResponse(c.suite, r1, ephSecret, slot, info.value.senderIndex, c.sigKey, Zeros(16));
    if out.Err? then None else
    var keys := H.FinalizeResponder(c.suite, r2);
    Some((out.value, HsSession(keys.sendKey, keys.recvKey, keys.hash, info.value.initiatorStatic, now)))
  }

  // Type and length, then room, then the cryptography, then the send; only then is a slot taken.
  function ProcessDatagram(c: Config, hs: seq<Option<HsSession>>, pkt: bytes, m: Meeting)
    : (r: (Result<nat, HandshakeError>, seq<Option<HsSession>>))
    requires Laws(c.suite) && |hs| == HS_SLOTS
  {
    if |pkt| != H.MSG1_SIZE || pkt[0] != 1 then (Err(NotInitiation), hs)
    else if FirstFree(hs) == HS_SLOTS then (Err(TableFull), hs)
    else
      match Answer(c, pkt, FirstFree(hs), m.ephSecret, m.now)
      case None => (Err(Refused), hs)
      case Some((out, session)) =>
        if !m.accepts(out) then (Err(SendFailed), hs)
        else (Ok(FirstFree(hs)), hs[FirstFree(hs) := Some(session)])
  }

  // A failed handshake leaves no half-made session: only success changes the table, by filling one free slot.
  lemma OneCommit(c: Config, hs: seq<Option<HsSession>>, pkt: bytes, m: Meeting)
    requires Laws(c.suite) && |hs| == HS_SLOTS
    ensures OneCommitted(hs, ProcessDatagram(c, hs, pkt, m).0, ProcessDatagram(c, hs, pkt, m).1)
  {
    hide Laws, Answer;
  }

  // ---------- the node's steps ----------

  function Reject(n: Node, kind: nat): Node
    requires kind < |n.rejects|
  {
    n.(rejected := n.rejected + 1, rejects := n.rejects[kind := n.rejects[kind] + 1])
  }

  // At most one slot of the table has been filled, the one the result names.
  predicate OneCommitted(hs: seq<Option<HsSession>>, res: Result<nat, HandshakeError>, after: seq<Option<HsSession>>) {
    && |hs| == |after| == HS_SLOTS
    && (res.Err? ==> after == hs)
    && (res.Ok? ==>
          && res.value < HS_SLOTS && hs[res.value].None? && after[res.value].Some?
          && after == hs[res.value := after[res.value]])
  }

  // What follows a handshake: a full table is counted; a committed slot gets its session and peer key,
  // if the session table has room.
  function Settle(n: Node, res: Result<nat, HandshakeError>, hs: seq<Option<HsSession>>, later: u64): Node
    requires Sized(n) && OneCommitted(n.hs, res, hs)
  {
    if res == Err(TableFull) then
      n.(rejects := n.rejects[HANDSHAKE_FULL := n.rejects[HANDSHAKE_FULL] + 1])
    else if res.Err? then n
    else
      var slot := res.value;
      var s := hs[slot].value;
      if n.sessions[slot].Some? then n.(hs := hs)
      else
        n.(hs := hs,
           sessions := n.sessions[slot := Some(Session(slot, s.sendKey, s.recvKey, s.hash, later, false))],
           peers := n.peers[slot := Some(s.peerStatic)])
  }

  function OnHandshake(c: Config, n: Node, pkt: bytes, m: Meeting): Node
    requires Laws(c.suite) && Sized(n)
  {
    OneCommit(c, n.hs, pkt, m);
    var (res, hs) := ProcessDatagram(c, n.hs, pkt, m);
    Settle(n, res, hs, m.later)
  }

  // The binding frame: a length, a certificate, a signature.
  function OnBinding(c: Config, n: Node, plain: bytes, idx: nat, now: u64): Node
    requires Sized(n) && idx < SESSION_SLOTS && n.sessions[idx].Some? && n.sessions[idx].value.local < HS_SLOTS
  {
    var s := n.sessions[idx].value;
    if |plain| < 2 + 64 then Reject(n, BINDING) else
    var len: nat := U16Of(plain[..2]);
    if |plain| < 2 + len + 64 then Reject(n, BINDING) else
    var wire, sig := plain[2..2 + len], plain[2 + len..2 + len + 64];
    match Certs.ParseCert(wire)
    case Err(_) => Reject(n, BINDING)
    case Ok(cert) =>
      if n.peers[s.local].None? then n
      else if Certs.BindSession(cert, sig, s.hash, n.peers[s.local].value, c.trusted, c.verify, now).Ok? then
        n.(sessions := n.sessions[idx := Some(s.(bound := true))], certs := n.certs + [(cert.sigPubkey, wire)])
      else Reject(n, BINDING)
  }

  function OnTransport(c: Config, n: Node, pkt: bytes, m: Meeting): Node
    requires Sized(n)
    requires forall i :: 0 <= i < SESSION_SLOTS && n.sessions[i].Some? ==> n.sessions[i].value.local < HS_SLOTS
  {
    if |pkt| < HEADER_SIZE + 16 then n else
    var idx := U32Of(pkt[4..8]);
    if idx >= SESSION_SLOTS || n.sessions[idx].None? then n
    else if m.plaintext.None? then Reject(n, TRANSPORT)
    else if n.sessions[idx].value.bound then
      (if m.verdict.Some? then Reject(n, m.verdict.value) else n)
    else OnBinding(c, n, m.plaintext.value, idx, m.now)
  }

  function OnDatagram(c: Config, n: Node, pkt: bytes, m: Meeting): Node
    requires Laws(c.suite) && Sized(n)
    requires forall i :: 0 <= i < SESSION_SLOTS && n.sessions[i].Some? ==> n.sessions[i].value.local < HS_SLOTS
  {
    if pkt == [] then n
    else if pkt[0] == 1 then OnHandshake(c, n, pkt, m)
    else if pkt[0] == 4 then OnTransport(c, n, pkt, m)
    else n
  }

  predicate Stale(s: Option<HsSession>, now: u64) {
    s.Some? && SatSub(now, s.value.created) > T_HS_IDLE_MS
  }

  // The indices of the stale slots among the first k, in order.
  function Freed(hs: seq<Option<HsSession>>, now: u64, k: nat): (f: seq<nat>)
    requires k <= |hs|
    ensures forall x: nat :: x in f <==> x < k && Stale(hs[x], now)
  {
    if k == 0 then []
    else Freed(hs, now, k - 1) + (if Stale(hs[k - 1], now) then [k - 1] else [])
  }

  function Without<T>(slots: seq<Option<T>>, gone: seq<nat>): (r: seq<Option<T>>)
    ensures |r| == |slots|
    ensures forall i :: 0 <= i < |slots| ==> r[i] == if i in gone then None else slots[i]
  {
    seq(|slots|, i requires 0 <= i < |slots| => if i in gone then None else slots[i])
  }

  // The sweep frees a slot in all three places.
  function OnSweep(n: Node, now: u64): Node
    requires Sized(n)
  {
    var freed := Freed(n.hs, now, HS_SLOTS);
    n.(hs := Without(n.hs, freed), sessions := Without(n.sessions, freed), peers := Without(n.peers, freed),
       released := n.released + |freed|)
  }

  // ---------- the invariant ----------

  predicate Sized(n: Node) {
    |n.hs| == HS_SLOTS && |n.sessions| == SESSION_SLOTS && |n.peers| == HS_SLOTS && |n.rejects| == CLASSES
  }

  // Handshake slot, session and peer key of index i stand for one handshake, or are all absent.
  predicate Shadowed(n: Node, i: nat)
    requires Sized(n) && i < HS_SLOTS
  {
    match n.hs[i]
    case None => n.sessions[i].None? && n.peers[i].None?
    case Some(h) =>
      && n.sessions[i].Some? && n.peers[i] == Some(h.peerStatic)
      && var s := n.sessions[i].value;
      s.local == i && s.sendKey == h.sendKey && s.recvKey == h.recvKey && s.hash == h.hash
  }

  function SumOf(xs: seq<nat>): nat {
    if xs == [] then 0 else SumOf(xs[..|xs| - 1]) + xs[|xs| - 1]
  }

  ghost predicate Inv(n: Node) {
    && Sized(n)
    && (forall i :: 0 <= i < HS_SLOTS ==> Shadowed(n, i))
    && (forall i :: HS_SLOTS <= i < SESSION_SLOTS ==> n.sessions[i].None?)
    && SumOf(n.rejects) == n.rejected + n.rejects[HANDSHAKE_FULL]
  }

  lemma {:induction false} SumAfterBump(xs: seq<nat>, i: nat)
    requires i < |xs|
    ensures SumOf(xs[i := xs[i] + 1]) == SumOf(xs) + 1
  {
    var last := |xs| - 1;
    if i < last {
      SumAfterBump(xs[..last], i);
      assert xs[i := xs[i] + 1][..last] == xs[..last][i := xs[i] + 1];
    } else {
      assert xs[i := xs[i] + 1][..last] == xs[..last];
    }
  }

  lemma RejectKeepsInv(n: Node, kind: nat)
    requires Inv(n) && kind < HANDSHAKE_FULL
    ensures Inv(Reject(n, kind))
  {
    SumAfterBump(n.rejects, kind);
    assert forall i :: 0 <= i < HS_SLOTS ==> Shadowed(n, i) ==> Shadowed(Reject(n, kind), i);
  }

  // After a commit the session table always has the slot: admission never fails.
  lemma AdmissionNeverFails(c: Config, n: Node, pkt: bytes, m: Meeting)
    requires Laws(c.suite) && Inv(n)
    ensures var res := ProcessDatagram(c, n.hs, pkt, m).0;
            res.Ok? ==> res.value < HS_SLOTS && n.sessions[res.value].None?
  {
    OneCommit(c, n.hs, pkt, m);
    hide Laws, ProcessDatagram;
    var res := ProcessDatagram(c, n.hs, pkt, m).0;
    if res.Ok? {
      assert Shadowed(n, res.value);
    }
  }

  lemma SettleKeepsInv(n: Node, res: Result<nat, HandshakeError>, hs: seq<Option<HsSession>>, later: u64)
    requires Inv(n) && OneCommitted(n.hs, res, hs)
    ensures Inv(Settle(n, res, hs, later))
  {
    var after := Settle(n, res, hs, later);
    SumAfterBump(n.rejects, HANDSHAKE_FULL);
    if res.Ok? {
      assert Shadowed(n, res.value);
    }
    forall i | 0 <= i < HS_SLOTS ensures Shadowed(after, i) {
      assert Shadowed(n, i);
    }
  }

  lemma HandshakeKeepsInv(c: Config, n: Node, pkt: bytes, m: Meeting)
    requires Laws(c.suite) && Inv(n)
    ensures Inv(OnHandshake(c, n, pkt, m))
  {
    OneCommit(c, n.hs, pkt, m);
    var (res, hs) := ProcessDatagram(c, n.hs, pkt, m);
    hide Laws, ProcessDatagram;
    SettleKeepsInv(n, res, hs, m.later);
  }

  lemma BindingKeepsInv(c: Config, n: Node, plain: bytes, idx: nat, now: u64)
    requires Inv(n) && idx < SESSION_SLOTS && n.sessions[idx].Some? && n.sessions[idx].value.local < HS_SLOTS
    ensures Inv(OnBinding(c, n, plain, idx, now))
  {
    hide Certs.ParseCert, Certs.BindSession;
    RejectKeepsInv(n, BINDING);
    var after := OnBinding(c, n, plain, idx, now);
    forall i | 0 <= i < HS_SLOTS ensures Shadowed(after, i) {
      assert Shadowed(n, i);
    }
  }

  // Every session in use is at a handshake slot's index and knows it.
  lemma LocalInRange(n: Node, i: nat)
    requires Inv(n) && i < SESSION_SLOTS && n.sessions[i].Some?
    ensures i < HS_SLOTS && n.sessions[i].value.local == i && n.peers[i].Some?
  {
    if i < HS_SLOTS {
      assert Shadowed(n, i);
    }
  }

  lemma SweepKeepsInv(n: Node, now: u64)
    requires Inv(n)
    ensures Inv(OnSweep(n, now))
  {
    var after := OnSweep(n, now);
    forall i | 0 <= i < HS_SLOTS ensures Shadowed(after, i) {
      assert Shadowed(n, i);
    }
  }

  datatype Event = Datagram(pkt: bytes, meeting: Meeting) | Sweep(now: u64)

  lemma AllLocalInRange(n: Node)
    requires Inv(n)
    ensures forall i :: 0 <= i < SESSION_SLOTS && n.sessions[i].Some? ==> n.sessions[i].value.local < HS_SLOTS
  {
    forall i | 0 <= i < SESSION_SLOTS && n.sessions[i].Some? ensures n.sessions[i].value.local < HS_SLOTS {
      LocalInRange(n, i);
    }
  }

  ghost function Step(c: Config, n: Node, e: Event): (r: Node)
    requires Laws(c.suite) && Inv(n)
    ensures Inv(r)
  {
    match e
    case Datagram(pkt, m) =>
      AllLocalInRange(n);
      DatagramKeepsInv(c, n, pkt, m);
      OnDatagram(c, n, pkt, m)
    case Sweep(now) =>
      SweepKeepsInv(n, now);
      OnSweep(n, now)
  }

  lemma DatagramKeepsInv(c: Config, n: Node, pkt: bytes, m: Meeting)
    requires Laws(c.suite) && Inv(n)
    requires forall i :: 0 <= i < SESSION_SLOTS && n.sessions[i].Some? ==> n.sessions[i].value.local < HS_SLOTS
    ensures Inv(OnDatagram(c, n, pkt, m))
  {
    assert Sized(n);
    hide Laws, Inv, OnHandshake, OnBinding, Reject;
    if pkt != [] && pkt[0] == 1 {
      HandshakeKeepsInv(c, n, pkt, m);
    } else if pkt != [] && pkt[0] == 4 && |pkt| >= HEADER_SIZE + 16 {
      var idx := U32Of(pkt[4..8]);
      if idx < SESSION_SLOTS && n.sessions[idx].Some? {
        if m.plaintext.None? {
          RejectKeepsInv(n, TRANSPORT);
        } else if n.sessions[idx].value.bound {
          if m.verdict.Some? {
            RejectKeepsInv(n, m.verdict.value);
          }
        } else {
          BindingKeepsInv(c, n, m.plaintext.value, idx, m.now);
        }
      }
    }
  }

  ghost function Run(c: Config, n: Node, es: seq<Event>): (r: Node)
    requires Laws(c.suite) && Inv(n)
    ensures Inv(r)
    decreases es
  {
    if es == [] then n else Run(c, Step(c, n, es[0]), es[1..])
  }

  function Boot(): Node {
    Node(seq(HS_SLOTS, _ => None), seq(SESSION_SLOTS, _ => None), seq(HS_SLOTS, _ => None),
         [], 0, seq(CLASSES, _ => 0), 0)
  }

  lemma {:induction false} SumOfZeros(k: nat)
    ensures SumOf(seq(k, _ => 0)) == 0
  {
    if k > 0 {
      SumOfZeros(k - 1);
      assert seq(k, _ => 0)[..k - 1] == seq(k - 1, _ => 0);
    }
  }

  lemma BootHoldsInv()
    ensures Inv(Boot())
  {
    SumOfZeros(CLASSES);
  }

  // Over every run of datagrams and sweeps from boot: a slot's three records are there together or not at
  // all, no session lies beyond the sixteen, and the per-class counts add up to the refusals counted plus
  // the handshakes turned away for want of a slot.
  lemma SlotsStayInStep(c: Config, es: seq<Event>, i: nat)
    requires Laws(c.suite)
    ensures Inv(Boot())
    ensures var n := Run(c, Boot(), es);
            && (i < HS_SLOTS ==> (n.hs[i].Some? <==> n.sessions[i].Some?) && (n.hs[i].Some? <==> n.peers[i].Some?))
            && (HS_SLOTS <= i < SESSION_SLOTS ==> n.sessions[i].None?)
            && SumOf(n.rejects) == n.rejected + n.rejects[HANDSHAKE_FULL]
  {
    BootHoldsInv();
    var n := Run(c, Boot(), es);
    if i < HS_SLOTS {
      assert Shadowed(n, i);
    }
  }

  // ---------- bound sessions are vouched for ----------

  // A certificate on record, under its own key: it passes the chain check, names the peer's static key,
  // and its holder signed this session's handshake hash.
  ghost predicate Vouches(c: Config, record: (bytes, bytes), s: Session, peer: bytes) {
    && Certs.ParseCert(record.1).Ok?
    && var cert := Certs.ParseCert(record.1).value;
       && record.0 == cert.sigPubkey && cert.kexPubkey == peer
       && Certs.ValidateCertChain(cert, c.trusted, c.verify).Ok?
       && exists sig :: |sig| == 64 && c.verify(Certs.DOMAIN_BINDING, s.hash, sig, cert.sigPubkey)
  }

  ghost predicate Vouched(c: Config, n: Node, i: nat)
    requires Sized(n) && i < HS_SLOTS
  {
    n.sessions[i].Some? && n.sessions[i].value.bound ==>
      n.peers[i].Some?
      && exists k :: 0 <= k < |n.certs| && Vouches(c, n.certs[k], n.sessions[i].value, n.peers[i].value)
  }

  // What a step leaves of slot i: gone, new and unbound, or as it was with the records only added to.
  predicate KeepsSlot(n: Node, after: Node, i: nat)
    requires Sized(n) && Sized(after) && i < HS_SLOTS
  {
    || after.sessions[i].None?
    || !after.sessions[i].value.bound
    || (after.sessions[i] == n.sessions[i] && after.peers[i] == n.peers[i] && n.certs <= after.certs)
  }

  lemma KeptIsVouched(c: Config, n: Node, after: Node, i: nat)
    requires Sized(n) && Sized(after) && i < HS_SLOTS && KeepsSlot(n, after, i) && Vouched(c, n, i)
    ensures Vouched(c, after, i)
  {
    hide Vouches;
    if after.sessions[i].Some? && after.sessions[i].value.bound {
      var k :| 0 <= k < |n.certs| && Vouches(c, n.certs[k], n.sessions[i].value, n.peers[i].value);
      assert after.certs[k] == n.certs[k];
    }
  }

  // The frame of a binding that went through.
  lemma BindingFrame(c: Config, n: Node, plain: bytes, idx: nat, now: u64)
    returns (wire: bytes, sig: bytes, cert: Codec.Cert)
    requires Inv(n) && idx < HS_SLOTS && n.sessions[idx].Some? && n.sessions[idx].value.local == idx
    requires OnBinding(c, n, plain, idx, now).sessions != n.sessions
    ensures Certs.ParseCert(wire) == Ok(cert) && n.peers[idx].Some? && |sig| == 64
    ensures Certs.BindSession(cert, sig, n.sessions[idx].value.hash, n.peers[idx].value, c.trusted, c.verify, now).Ok?
    ensures OnBinding(c, n, plain, idx, now) ==
              n.(sessions := n.sessions[idx := Some(n.sessions[idx].value.(bound := true))],
                 certs := n.certs + [(cert.sigPubkey, wire)])
  {
    hide Certs.ParseCert, Certs.BindSession;
    var len: nat := U16Of(plain[..2]);
    wire, sig := plain[2..2 + len], plain[2 + len..2 + len + 64];
    cert := Certs.ParseCert(wire).value;
  }

  lemma NewlyVouched(c: Config, n: Node, wire: bytes, sig: bytes, cert: Codec.Cert, idx: nat, now: u64)
    requires Sized(n) && idx < HS_SLOTS && n.sessions[idx].Some? && n.peers[idx].Some?
    requires Certs.ParseCert(wire) == Ok(cert) && |sig| == 64
    requires Certs.BindSession(cert, sig, n.sessions[idx].value.hash, n.peers[idx].value, c.trusted, c.verify, now).Ok?
    ensures Vouched(c, n.(sessions := n.sessions[idx := Some(n.sessions[idx].value.(bound := true))],
                          certs := n.certs + [(cert.sigPubkey, wire)]), idx)
  {
    hide Certs.ParseCert, Certs.BindSession, Certs.ValidateCertChain;
    var s, certs := n.sessions[idx].value, n.certs + [(cert.sigPubkey, wire)];
    Certs.BoundSessionIff(cert, sig, s.hash, n.peers[idx].value, c.trusted, c.verify, now);
    assert Vouches(c, certs[|n.certs|], s.(bound := true), n.peers[idx].value);
  }

  lemma BindingKeepsSlot(c: Config, n: Node, plain: bytes, idx: nat, now: u64, i: nat)
    requires Sized(n) && idx < HS_SLOTS && n.sessions[idx].Some? && i < HS_SLOTS
    requires n.sessions[idx].value.local == idx
    ensures var after := OnBinding(c, n, plain, idx, now);
            Sized(after) && (i != idx || after.sessions == n.sessions ==> KeepsSlot(n, after, i))
  {
    hide Certs.ParseCert, Certs.BindSession;
  }

  lemma BindingVouches(c: Config, n: Node, plain: bytes, idx: nat, now: u64, i: nat)
    requires Inv(n) && idx < HS_SLOTS && n.sessions[idx].Some? && i < HS_SLOTS && Vouched(c, n, i)
    requires n.sessions[idx].value.local == idx
    ensures Sized(OnBinding(c, n, plain, idx, now)) && Vouched(c, OnBinding(c, n, plain, idx, now), i)
  {
    BindingKeepsSlot(c, n, plain, idx, now, i);
    hide Certs.ParseCert, Certs.BindSession, Vouched, Inv, OnBinding, KeepsSlot;
    var after := OnBinding(c, n, plain, idx, now);
    if i == idx && after.sessions != n.sessions {
      var wire, sig, cert := BindingFrame(c, n, plain, idx, now);
      NewlyVouched(c, n, wire, sig, cert, idx, now);
    } else {
      KeptIsVouched(c, n, after, i);
    }
  }

  // The session a datagram would bind.
  function Binding(n: Node, e: Event): Option<nat>
    requires Sized(n)
  {
    if e.Datagram? && |e.pkt| >= HEADER_SIZE + 16 && e.pkt[0] == 4 && e.meeting.plaintext.Some? then
      var idx := U32Of(e.pkt[4..8]);
      if idx < SESSION_SLOTS && n.sessions[idx].Some? && !n.sessions[idx].value.bound then Some(idx) else None
    else None
  }

  lemma SettleKeepsSlot(n: Node, res: Result<nat, HandshakeError>, hs: seq<Option<HsSession>>, later: u64, i: nat)
    requires Inv(n) && OneCommitted(n.hs, res, hs) && i < HS_SLOTS
    ensures KeepsSlot(n, Settle(n, res, hs, later), i)
  {
    if res.Ok? {
      assert Shadowed(n, res.value);
    }
  }

  lemma HandshakeKeepsSlot(c: Config, n: Node, pkt: bytes, m: Meeting, i: nat)
    requires Laws(c.suite) && Inv(n) && i < HS_SLOTS
    ensures Sized(OnHandshake(c, n, pkt, m)) && KeepsSlot(n, OnHandshake(c, n, pkt, m), i)
  {
    OneCommit(c, n.hs, pkt, m);
    var (res, hs) := ProcessDatagram(c, n.hs, pkt, m);
    hide Laws, ProcessDatagram;
    SettleKeepsSlot(n, res, hs, m.later, i);
  }

  lemma OthersKeepSlot(c: Config, n: Node, e: Event, i: nat)
    requires Laws(c.suite) && Inv(n) && i < HS_SLOTS && Binding(n, e).None?
    ensures KeepsSlot(n, Step(c, n, e), i)
  {
    AllLocalInRange(n);
    if e.Datagram? && e.pkt != [] && e.pkt[0] == 1 {
      HandshakeKeepsSlot(c, n, e.pkt, e.meeting, i);
    }
    hide Laws, Inv, OnHandshake, OnBinding;
  }

  lemma StepVouches(c: Config, n: Node, e: Event, i: nat)
    requires Laws(c.suite) && Inv(n) && i < HS_SLOTS && Vouched(c, n, i)
    ensures Vouched(c, Step(c, n, e), i)
  {
    hide Laws, Vouched, KeepsSlot, OnHandshake, OnBinding, OnSweep;
    if Binding(n, e).Some? {
      var idx := Binding(n, e).value;
      AllLocalInRange(n);
      LocalInRange(n, idx);
      BindingVouches(c, n, e.meeting.plaintext.value, idx, e.meeting.now, i);
    } else {
      OthersKeepSlot(c, n, e, i);
      KeptIsVouched(c, n, Step(c, n, e), i);
    }
  }

  lemma {:induction false} RunVouches(c: Config, n: Node, es: seq<Event>, i: nat)
    requires Laws(c.suite) && Inv(n) && i < HS_SLOTS && Vouched(c, n, i)
    ensures Vouched(c, Run(c, n, es), i)
    decreases es
  {
    if es != [] {
      StepVouches(c, n, es[0], i);
      RunVouches(c, Step(c, n, es[0]), es[1..], i);
    }
  }

  // Over every run from boot, a session is marked bound only while a certificate on record vouches for it.
  lemma BoundMeansVouched(c: Config, es: seq<Event>, i: nat)
    requires Laws(c.suite) && i < HS_SLOTS
    ensures Inv(Boot()) && Vouched(c, Run(c, Boot(), es), i)
  {
    BootHoldsInv();
    RunVouches(c, Boot(), es, i);
  }

  // ---------- an honest peer is admitted ----------

  lemma AnswerToHonest(c: Config, own: bytes, eph: bytes, index: u32, time: u64, cookie: bytes,
                       slot: u32, ephSecret: bytes, now: u64)
    requires Laws(c.suite) && |c.secret| == |own| == |eph| == |ephSecret| == DHLEN && |cookie| == H.MAC_BYTES
    requires Agree(c.suite, eph, FromSecret(c.suite, c.secret).public).Ok?
    requires Agree(c.suite, own, FromSecret(c.suite, c.secret).public).Ok?
    requires Agree(c.suite, ephSecret, FromSecret(c.suite, eph).public).Ok?
    requires Agree(c.suite, ephSecret, FromSecret(c.suite, own).public).Ok?
    ensures var i0 := H.NewInitiator(c.suite, FromSecret(c.suite, own), FromSecret(c.suite, c.secret).public);
            var (msg, i1) := H.WriteInitiation(c.suite, i0, eph, index, time, c.sigKey, cookie);
            && msg.Ok? && |msg.value| == H.MSG1_SIZE && msg.value[0] == 1
            && var answer := Answer(c, msg.value, slot, ephSecret, now);
            && answer.Some? && |answer.value.0| == H.MSG2_SIZE && answer.value.0[4..8] == U32Bytes(slot)
            && var (read, i2) := H.ReadResponse(c.suite, i1, answer.value.0, c.sigKey);
            && read.Ok? && Crossed(answer.value.1, H.FinalizeInitiator(c.suite, i2))
            && answer.value.1.peerStatic == FromSecret(c.suite, own).public
  {
    var suite := c.suite;
    H.HonestHandshake(suite, own, c.secret, eph, ephSecret, index, slot, time, c.sigKey, cookie, Zeros(16));
    hide Laws, H.WriteInitiation, H.ReadInitiation, H.WriteResponse, H.ReadResponse, Agree, FromSecret, MixHash;
    var i0 := H.NewInitiator(suite, FromSecret(suite, own), FromSecret(suite, c.secret).public);
    var msg := H.WriteInitiation(suite, i0, eph, index, time, c.sigKey, cookie).0;
    assert msg.value[0] == msg.value[..4][0];
  }

  ghost predicate Crossed(s: HsSession, keys: H.HandshakeResult) {
    s.sendKey == keys.recvKey && s.recvKey == keys.sendKey && s.hash == keys.hash
  }

  // An honest initiation finding a free slot, with no agreement at the identity point and a send that goes
  // through: the slot holds the initiator's static key and the keys the initiator ends up with, crossed; and
  // the response names that very slot.
  lemma HonestPeerAdmitted(c: Config, hs: seq<Option<HsSession>>, own: bytes, eph: bytes, index: u32, time: u64,
                           cookie: bytes, m: Meeting)
    requires Laws(c.suite) && |hs| == HS_SLOTS && FirstFree(hs) < HS_SLOTS
    requires |c.secret| == |own| == |eph| == |m.ephSecret| == DHLEN && |cookie| == H.MAC_BYTES
    requires Agree(c.suite, eph, FromSecret(c.suite, c.secret).public).Ok?
    requires Agree(c.suite, own, FromSecret(c.suite, c.secret).public).Ok?
    requires Agree(c.suite, m.ephSecret, FromSecret(c.suite, eph).public).Ok?
    requires Agree(c.suite, m.ephSecret, FromSecret(c.suite, own).public).Ok?
    requires forall out :: m.accepts(out)
    ensures var i0 := H.NewInitiator(c.suite, FromSecret(c.suite, own), FromSecret(c.suite, c.secret).public);
            var (msg, i1) := H.WriteInitiation(c.suite, i0, eph, index, time, c.sigKey, cookie);
            && msg.Ok?
            && var (res, after) := ProcessDatagram(c, hs, msg.value, m);
            && res == Ok(FirstFree(hs)) && after[res.value].Some?
            && var answer := Answer(c, msg.value, res.value, m.ephSecret, m.now);
            && answer.Some? && |answer.value.0| == H.MSG2_SIZE && answer.value.0[4..8] == U32Bytes(res.value)
            && var (read, i2) := H.ReadResponse(c.suite, i1, answer.value.0, c.sigKey);
            && read.Ok?
            && var s, keys := after[res.value].value, H.FinalizeInitiator(c.suite, i2);
            && Crossed(s, keys) && s.peerStatic == FromSecret(c.suite, own).public
  {
    AnswerToHonest(c, own, eph, index, time, cookie, FirstFree(hs), m.ephSecret, m.now);
    hide Laws, Answer, H.WriteInitiation, H.ReadResponse, Agree, FromSecret, Crossed;
  }
}
