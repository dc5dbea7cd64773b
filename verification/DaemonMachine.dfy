/** The daemon's handshake, transport and sweep handlers over its tables, updated in place. */
module DaemonMachine {
  import opened Base
  import opened Wire
  import opened Noise
  import opened DaemonSlots
  import H = Handshake
  import M = NoiseMachines
  import Certs

  class Daemon {
    const config: Config
    const hs: array<Option<HsSession>>
    const sessions: array<Option<Session>>
    const peers: array<Option<bytes>>
    const rejects: array<nat>
    var certs: seq<(bytes, bytes)>
    var rejected: nat
    var released: nat

    function View(): Node
      reads this, hs, sessions, peers, rejects
    {
      Node(hs[..], sessions[..], peers[..], certs, rejected, rejects[..], released)
    }

    ghost predicate Valid()
      reads this, hs, sessions, peers, rejects
    {
      Laws(config.suite) && Inv(View())
    }

    constructor (config: Config)
      requires Laws(config.suite)
      ensures Valid() && View() == Boot() && this.config == config
      ensures fresh(hs) && fresh(sessions) && fresh(peers) && fresh(rejects)
    {
      this.config := config;
      hs := new Option<HsSession>[HS_SLOTS](_ => None);
      sessions := new Option<Session>[SESSION_SLOTS](_ => None);
      peers := new Option<bytes>[HS_SLOTS](_ => None);
      rejects := new nat[CLASSES](_ => 0);
      certs, rejected, released := [], 0, 0;
      new;
      BootHoldsInv();
      assert View() == Boot();
    }

    // The first free handshake slot, or the number of slots.
    method Position() returns (i: nat)
      ensures i == FirstFree(hs[..])
    {
      i := 0;
      while i < hs.Length && hs[i].Some?
        invariant i <= hs.Length
        invariant forall k :: 0 <= k < i ==> hs[k].Some?
      {
        i := i + 1;
      }
    }

    method ProcessDatagram(pkt: bytes, m: Meeting) returns (r: Result<nat, HandshakeError>)
      requires Laws(config.suite) && hs.Length == HS_SLOTS
      modifies hs
      ensures (r, hs[..]) == DaemonSlots.ProcessDatagram(config, old(hs[..]), pkt, m)
    {
      if |pkt| != H.MSG1_SIZE || pkt[0] != 1 {
        return Err(NotInitiation);
      }
      var slot := Position();
      if slot == HS_SLOTS {
        return Err(TableFull);
      }
      var responder := new M.Responder(config.suite, FromSecret(config.suite, config.secret));
      var info := responder.ReadInitiation(config.suite, pkt, config.sigKey);
      if info.Err? {
        return Err(Refused);
      }
      var out := new byte[H.MSG2_SIZE](_ => 0);
      var wrote := responder.WriteResponse(config.suite, out, m.ephSecret, slot, info.value.senderIndex,
                                           config.sigKey, Zeros(16));
      if wrote.Err? {
        return Err(Refused);
      }
      if !m.accepts(out[..]) {
        return Err(SendFailed);
      }
      var keys := responder.Finalize(config.suite);
      hs[slot] := Some(HsSession(keys.sendKey, keys.recvKey, keys.hash, info.value.initiatorStatic, m.now));
      return Ok(slot);
    }

    method Reject(kind: nat)
      requires kind < rejects.Length
      modifies `rejected, rejects
      ensures View() == DaemonSlots.Reject(old(View()), kind)
    {
      rejected := rejected + 1;
      rejects[kind] := rejects[kind] + 1;
    }

    // The session and the peer's key follow the slot, if the session table has room for it.
    method AdmitSession(slot: nat, later: u64)
      requires hs.Length == peers.Length == HS_SLOTS && sessions.Length == SESSION_SLOTS
      requires slot < HS_SLOTS && hs[slot].Some?
      modifies sessions, peers
      ensures var s := hs[slot].value;
              if old(sessions[slot]).Some? then sessions[..] == old(sessions[..]) && peers[..] == old(peers[..])
              else
                && sessions[..]
                   == old(sessions[..])[slot := Some(Session(slot, s.sendKey, s.recvKey, s.hash, later, false))]
                && peers[..] == old(peers[..])[slot := Some(s.peerStatic)]
    {
      var s := hs[slot].value;
      if sessions[slot].None? {
        sessions[slot] := Some(Session(slot, s.sendKey, s.recvKey, s.hash, later, false));
        peers[slot] := Some(s.peerStatic);
      }
    }

    // What follows a handshake; n is the node before it.
    method Follow(res: Result<nat, HandshakeError>, later: u64, ghost n: Node)
      requires Sized(n) && OneCommitted(n.hs, res, hs[..]) && View() == n.(hs := hs[..])
      modifies sessions, peers, rejects
      ensures View() == Settle(n, res, hs[..], later)
    {
      if res == Err(TableFull) {
        rejects[HANDSHAKE_FULL] := rejects[HANDSHAKE_FULL] + 1;
        assert View().rejects == n.rejects[HANDSHAKE_FULL := n.rejects[HANDSHAKE_FULL] + 1];
      }
      if res.Ok? {
        AdmitSession(res.value, later);
      }
    }

    method HandleHandshake(pkt: bytes, m: Meeting)
      requires Valid()
      modifies hs, sessions, peers, rejects
      ensures Valid() && View() == OnHandshake(config, old(View()), pkt, m)
    {
      ghost var n := View();
      HandshakeKeepsInv(config, n, pkt, m);
      OneCommit(config, n.hs, pkt, m);
      assert Sized(n);
      hide Laws, Inv, DaemonSlots.ProcessDatagram, Settle, OneCommitted;
      var res := ProcessDatagram(pkt, m);
      Follow(res, m.later, n);
    }

    // The session counts as bound, and the certificate is put on record.
    method Bind(idx: nat, key: bytes, wire: bytes)
      requires idx < sessions.Length && sessions[idx].Some?
      modifies `certs, sessions
      ensures var n := old(View());
              View() == n.(sessions := n.sessions[idx := Some(n.sessions[idx].value.(bound := true))],
                           certs := n.certs + [(key, wire)])
    {
      sessions[idx] := Some(sessions[idx].value.(bound := true));
      certs := certs + [(key, wire)];
    }

    method HandleBinding(plain: bytes, idx: nat, now: u64)
      requires Valid() && idx < SESSION_SLOTS && sessions[idx].Some?
      requires sessions[idx].value.local < HS_SLOTS
      modifies `certs, `rejected, sessions, rejects
      ensures Valid() && View() == OnBinding(config, old(View()), plain, idx, now)
    {
      BindingKeepsInv(config, View(), plain, idx, now);
      assert Sized(View());
      hide Laws, Inv, Certs.ParseCert, Certs.BindSession;
      if |plain| < 2 + 64 {
        Reject(BINDING);
        return;
      }
      var len: nat := U16Of(plain[..2]);
      if |plain| < 2 + len + 64 {
        Reject(BINDING);
        return;
      }
      var wire, sig := plain[2..2 + len], plain[2 + len..2 + len + 64];
      var parsed := Certs.ParseCert(wire);
      if parsed.Err? {
        Reject(BINDING);
        return;
      }
      var s := sessions[idx].value;
      if peers[s.local].None? {
        return;
      }
      var bound := Certs.BindSession(
        parsed.value, sig, s.hash, peers[s.local].value, config.trusted, config.verify, now);
      if bound.Ok? {
        Bind(idx, parsed.value.sigPubkey, wire);
      } else {
        Reject(BINDING);
      }
    }

    method HandleTransport(pkt: bytes, m: Meeting)
      requires Valid()
      requires forall i :: 0 <= i < SESSION_SLOTS && sessions[i].Some? ==> sessions[i].value.local < HS_SLOTS
      modifies `certs, `rejected, sessions, rejects
      ensures Valid() && View() == OnTransport(config, old(View()), pkt, m)
    {
      if |pkt| < HEADER_SIZE + 16 {
        return;
      }
      var idx := U32Of(pkt[4..8]);
      if idx >= SESSION_SLOTS || sessions[idx].None? {
        return;
      }
      if m.plaintext.None? {
        RejectKeepsInv(View(), TRANSPORT);
        Reject(TRANSPORT);
      } else if sessions[idx].value.bound {
        if m.verdict.Some? {
          RejectKeepsInv(View(), m.verdict.value);
          Reject(m.verdict.value);
        }
      } else {
        HandleBinding(m.plaintext.value, idx, m.now);
      }
    }

    method HandleDatagram(pkt: bytes, m: Meeting)
      requires Valid()
      modifies `certs, `rejected, hs, sessions, peers, rejects
      ensures Valid() && View() == Step(config, old(View()), Datagram(pkt, m))
    {
      AllLocalInRange(View());
      if pkt == [] {
        return;
      }
      if pkt[0] == 1 {
        HandleHandshake(pkt, m);
      } else if pkt[0] == 4 {
        HandleTransport(pkt, m);
      }
    }

    // Free the handshake slots silent past the horizon; say which.
    method ReleaseStale(now: u64) returns (freed: seq<nat>)
      requires hs.Length == HS_SLOTS
      modifies hs
      ensures freed == Freed(old(hs[..]), now, HS_SLOTS)
      ensures hs[..] == Without(old(hs[..]), freed)
    {
      ghost var was := hs[..];
      freed := [];
      for i := 0 to HS_SLOTS
        invariant freed == Freed(was, now, i)
        invariant forall k :: 0 <= k < HS_SLOTS ==> hs[k] == if k < i && Stale(was[k], now) then None else was[k]
      {
        if hs[i].Some? && SatSub(now, hs[i].value.created) > T_HS_IDLE_MS {
          hs[i] := None;
          freed := freed + [i];
        }
      }
    }

    // A release touches all three records of the slot.
    method ReleaseHsSlot(idx: nat)
      requires hs.Length == peers.Length == HS_SLOTS && sessions.Length == SESSION_SLOTS && idx < HS_SLOTS
      modifies hs, sessions, peers
      ensures hs[..] == old(hs[..])[idx := None]
      ensures sessions[..] == old(sessions[..])[idx := None]
      ensures peers[..] == old(peers[..])[idx := None]
    {
      hs[idx] := None;
      sessions[idx] := None;
      peers[idx] := None;
    }

    // Release each of the named slots in all three records.
    method ReleaseAll(freed: seq<nat>)
      requires hs.Length == peers.Length == HS_SLOTS && sessions.Length == SESSION_SLOTS
      requires forall j :: 0 <= j < |freed| ==> freed[j] < HS_SLOTS
      modifies hs, sessions, peers
      ensures hs[..] == Without(old(hs[..]), freed)
      ensures sessions[..] == Without(old(sessions[..]), freed)
      ensures peers[..] == Without(old(peers[..]), freed)
    {
      for j := 0 to |freed|
        invariant hs[..] == Without(old(hs[..]), freed[..j])
        invariant sessions[..] == Without(old(sessions[..]), freed[..j])
        invariant peers[..] == Without(old(peers[..]), freed[..j])
      {
        assert freed[..j + 1] == freed[..j] + [freed[j]];
        ReleaseHsSlot(freed[j]);
      }
      assert freed[..|freed|] == freed;
    }

    method ReleaseStaleSlots(now: u64) returns (count: nat)
      requires Valid()
      modifies `released, hs, sessions, peers
      ensures Valid() && View() == Step(config, old(View()), Sweep(now))
      ensures count == released - old(released)
    {
      ghost var was := View();
      SweepKeepsInv(was, now);
      assert Sized(was);
      hide Laws, Inv, Freed, Stale;
      var freed := ReleaseStale(now);
      assert forall j :: 0 <= j < |freed| ==> freed[j] in freed;
      ReleaseAll(freed);
      assert hs[..] == Without(was.hs, freed);
      released := released + |freed|;
      assert View() == OnSweep(was, now);
      return |freed|;
    }
  }
}
