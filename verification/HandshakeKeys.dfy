/** What the handshake derives, spelled out from the suite's functions alone: the session keys are the end of
    one chain over the four shared secrets, the session hash the end of another over everything sent. */
module HandshakeKeys {
  import opened Base
  import opened Wire
  import opened Noise
  import H = Handshake

  const NONCE_ZERO: bytes := [0, 0, 0, 0, 0, 0, 0, 0, 0, 0, 0, 0]
  const NO_POINT: bytes := [
    0, 0, 0, 0, 0, 0, 0, 0, 0, 0, 0, 0, 0, 0, 0, 0, 0, 0, 0, 0, 0, 0, 0, 0, 0, 0, 0, 0, 0, 0, 0, 0]

  // ---------- the two chains ----------

  // One secret further: the first output of the key derivation.
  function Link(c: Suite, ck: bytes, secret: bytes): bytes {
    c.hmac(c.hmac(ck, secret), [1])
  }

  // The second output, which seals.
  function SealingKey(c: Suite, ck: bytes, secret: bytes): bytes {
    c.hmac(c.hmac(ck, secret), c.hmac(c.hmac(ck, secret), [1]) + [2])
  }

  function KeyChain(c: Suite, secrets: seq<bytes>): bytes {
    if secrets == [] then c.hash(PROTOCOL_NAME)
    else Link(c, KeyChain(c, secrets[..|secrets| - 1]), secrets[|secrets| - 1])
  }

  function HashChain(c: Suite, parts: seq<bytes>): bytes {
    if parts == [] then c.hash(PROTOCOL_NAME)
    else c.hash(HashChain(c, parts[..|parts| - 1]) + parts[|parts| - 1])
  }

  // A part sealed after these secrets and these parts.
  function Sealed(c: Suite, secrets: seq<bytes>, parts: seq<bytes>, plain: bytes): bytes
    requires secrets != []
  {
    var last := |secrets| - 1;
    c.seal(SealingKey(c, KeyChain(c, secrets[..last]), secrets[last]), NONCE_ZERO, HashChain(c, parts), plain)
  }

  function Unsealed(c: Suite, secrets: seq<bytes>, parts: seq<bytes>, part: bytes): Option<bytes>
    requires secrets != []
  {
    var last := |secrets| - 1;
    c.open(SealingKey(c, KeyChain(c, secrets[..last]), secrets[last]), NONCE_ZERO, HashChain(c, parts), part)
  }

  // ---------- the symmetric state is a point on both chains ----------

  ghost predicate At(c: Suite, st: Symmetric, secrets: seq<bytes>, parts: seq<bytes>) {
    && st.h == HashChain(c, parts) && st.ck == KeyChain(c, secrets)
    && (secrets != [] ==>
          && st.hasKey
          && st.k == SealingKey(c, KeyChain(c, secrets[..|secrets| - 1]), secrets[|secrets| - 1]))
  }

  lemma StartAt(c: Suite)
    ensures At(c, Start(c), [], [])
  {
  }

  lemma HashedAt(c: Suite, st: Symmetric, secrets: seq<bytes>, parts: seq<bytes>, data: bytes, longer: seq<bytes>)
    requires At(c, st, secrets, parts) && longer == parts + [data]
    ensures At(c, MixHash(c, st, data), secrets, longer)
  {
    assert longer[..|parts|] == parts;
  }

  lemma KeyedAt(c: Suite, st: Symmetric, secrets: seq<bytes>, parts: seq<bytes>, secret: bytes, longer: seq<bytes>)
    requires At(c, st, secrets, parts) && longer == secrets + [secret]
    ensures At(c, MixKey(c, st, secret), longer, parts)
  {
    assert longer[..|secrets|] == secrets;
  }

  lemma NonceZero()
    ensures Nonce(0) == NONCE_ZERO
  {
    assert U64Bytes(0) == [0, 0, 0, 0, 0, 0, 0, 0];
  }

  lemma SealedAt(c: Suite, st: Symmetric, secrets: seq<bytes>, parts: seq<bytes>, plain: bytes, longer: seq<bytes>)
    requires At(c, st, secrets, parts) && secrets != [] && st.n == 0
    requires longer == parts + [EncryptAndHash(c, st, plain).1]
    ensures var (after, part) := EncryptAndHash(c, st, plain);
            part == Sealed(c, secrets, parts, plain) && At(c, after, secrets, longer) && after.n == 1
  {
    NonceZero();
    assert longer[..|parts|] == parts;
  }

  lemma UnsealedAt(c: Suite, st: Symmetric, secrets: seq<bytes>, parts: seq<bytes>, part: bytes, longer: seq<bytes>)
    requires At(c, st, secrets, parts) && secrets != [] && st.n == 0 && longer == parts + [part]
    ensures match DecryptAndHash(c, st, part)
            case Err(_) => Unsealed(c, secrets, parts, part) == None
            case Ok((after, plain)) =>
              Unsealed(c, secrets, parts, part) == Some(plain) && At(c, after, secrets, longer) && after.n == 1
  {
    NonceZero();
    assert longer[..|parts|] == parts;
  }

  // ---------- the four steps ----------

  // The first message, byte for byte; it fails exactly when one of its two secrets is no point.
  lemma InitiationSpelled(c: Suite, own: KeyPair, responder: bytes, eph: bytes, index: u32, time: u64,
                          sigKey: bytes, cookie: bytes)
    ensures var (m, i1) := H.WriteInitiation(c, H.NewInitiator(c, own, responder), eph, index, time, sigKey, cookie);
            var es, ss := c.scalarMult(eph, responder), c.scalarMult(own.secret, responder);
            var e := c.scalarMult(eph, c.base);
            var s := Sealed(c, [es], [responder, e], own.public);
            var t := Sealed(c, [es, ss], [responder, e, s], U64Bytes(time));
            var body := [1, 0, 0, 0] + U32Bytes(index) + e + s + t;
            && (m.Ok? <==> es != NO_POINT && ss != NO_POINT)
            && (m.Ok? ==>
                  && m.value == body + c.mac1(sigKey, body) + cookie
                  && i1.own == own && i1.eph == KeyPair(eph, e) && i1.sym.n == 1
                  && At(c, i1.sym, [es, ss], [responder, e, s, t]))
  {
    hide At, Sealed, MixHash, MixKey, EncryptAndHash;
    var es, ss, e := c.scalarMult(eph, responder), c.scalarMult(own.secret, responder), c.scalarMult(eph, c.base);
    StartAt(c);
    HashedAt(c, Start(c), [], [], responder, [responder]);
    var h0 := MixHash(c, Start(c), responder);
    HashedAt(c, h0, [], [responder], e, [responder, e]);
    var h1 := MixHash(c, h0, e);
    KeyedAt(c, h1, [], [responder, e], es, [es]);
    var k1 := MixKey(c, h1, es);
    var (h2, s) := EncryptAndHash(c, k1, own.public);
    SealedAt(c, k1, [es], [responder, e], own.public, [responder, e, s]);
    KeyedAt(c, h2, [es], [responder, e, s], ss, [es, ss]);
    var k2 := MixKey(c, h2, ss);
    var t := EncryptAndHash(c, k2, U64Bytes(time)).1;
    SealedAt(c, k2, [es, ss], [responder, e, s], U64Bytes(time), [responder, e, s, t]);
    assert Zeros(DHLEN) == NO_POINT;
  }

  // The responder takes a first message from anyone exactly when its mac is right, neither secret is no point and
  // both sealed parts open; what they open to is the sender's static key and the time.
  lemma InitiationAccepted(c: Suite, own: KeyPair, msg: bytes, sigKey: bytes)
    requires Laws(c) && |msg| == H.MSG1_SIZE
    ensures var (info, r1) := H.ReadInitiation(c, H.NewResponder(c, own), msg, sigKey);
            var e, s, t := msg[8..40], msg[40..88], msg[88..112];
            var es := c.scalarMult(own.secret, e);
            var peer := Unsealed(c, [es], [own.public, e], s);
            && (info.Ok? <==>
                  && c.mac1(sigKey, msg[..112]) == msg[112..128]
                  && es != NO_POINT && peer.Some?
                  && var ss := c.scalarMult(own.secret, peer.value);
                  ss != NO_POINT && Unsealed(c, [es, ss], [own.public, e, s], t).Some?)
            && (info.Ok? ==>
                  && var ss := c.scalarMult(own.secret, peer.value);
                  && info.value.initiatorStatic == peer.value
                  && Unsealed(c, [es, ss], [own.public, e, s], t) == Some(U64Bytes(info.value.timestamp))
                  && U32Bytes(info.value.senderIndex) == msg[4..8]
                  && r1.own == own && r1.re == e && r1.remote == peer.value && r1.sym.n == 1
                  && At(c, r1.sym, [es, ss], [own.public, e, s, t]))
  {
    hide At, Unsealed, MixHash, MixKey, DecryptAndHash;
    assert Zeros(DHLEN) == NO_POINT;
    var e, s, t := msg[8..40], msg[40..88], msg[88..112];
    var es := c.scalarMult(own.secret, e);
    StartAt(c);
    HashedAt(c, Start(c), [], [], own.public, [own.public]);
    var h0 := MixHash(c, Start(c), own.public);
    HashedAt(c, h0, [], [own.public], e, [own.public, e]);
    var h1 := MixHash(c, h0, e);
    KeyedAt(c, h1, [], [own.public, e], es, [es]);
    var k1 := MixKey(c, h1, es);
    UnsealedAt(c, k1, [es], [own.public, e], s, [own.public, e, s]);
    var first := DecryptAndHash(c, k1, s);
    if first.Ok? {
      var (h2, peer) := first.value;
      var ss := c.scalarMult(own.secret, peer);
      KeyedAt(c, h2, [es], [own.public, e, s], ss, [es, ss]);
      var k2 := MixKey(c, h2, ss);
      UnsealedAt(c, k2, [es, ss], [own.public, e, s], t, [own.public, e, s, t]);
      if DecryptAndHash(c, k2, t).Ok? {
        H.DecryptedLength(c, k2, t);
      }
    }
    hide Laws;
  }

  // The second message, from a responder that has taken the first.
  lemma ResponseSpelled(c: Suite, r: H.ResponderState, eph: bytes, from: u32, to: u32, sigKey: bytes, cookie: bytes,
                        secrets: seq<bytes>, parts: seq<bytes>)
    requires At(c, r.sym, secrets, parts)
    ensures var (m, r2) := H.WriteResponse(c, r, eph, from, to, sigKey, cookie);
            var ee, se, e := c.scalarMult(eph, r.re), c.scalarMult(eph, r.remote), c.scalarMult(eph, c.base);
            var z := Sealed(c, secrets + [ee, se], parts + [e], []);
            var body := [2, 0, 0, 0] + U32Bytes(from) + U32Bytes(to) + e + z;
            && (m.Ok? <==> ee != NO_POINT && se != NO_POINT)
            && (m.Ok? ==>
                  && m.value == body + c.mac1(sigKey, body) + cookie
                  && At(c, r2.sym, secrets + [ee, se], parts + [e, z]))
  {
    hide At, Sealed, MixHash, MixKey, EncryptAndHash;
    assert Zeros(DHLEN) == NO_POINT;
    var ee, se, e := c.scalarMult(eph, r.re), c.scalarMult(eph, r.remote), c.scalarMult(eph, c.base);
    HashedAt(c, r.sym, secrets, parts, e, parts + [e]);
    var h := MixHash(c, r.sym, e);
    KeyedAt(c, h, secrets, parts + [e], ee, secrets + [ee]);
    var k1 := MixKey(c, h, ee);
    KeyedAt(c, k1, secrets + [ee], parts + [e], se, secrets + [ee, se]);
    var k2 := MixKey(c, k1, se);
    var z := EncryptAndHash(c, k2, []).1;
    SealedAt(c, k2, secrets + [ee, se], parts + [e], [], parts + [e, z]);
  }

  // The initiator takes a second message from anyone exactly when its mac is right, neither secret is no point and
  // the sealed part opens.
  lemma ResponseAccepted(c: Suite, i: H.InitiatorState, msg: bytes, sigKey: bytes,
                         secrets: seq<bytes>, parts: seq<bytes>)
    requires At(c, i.sym, secrets, parts) && |msg| == H.MSG2_SIZE
    ensures var (read, i2) := H.ReadResponse(c, i, msg, sigKey);
            var e, z := msg[12..44], msg[44..60];
            var ee, se := c.scalarMult(i.eph.secret, e), c.scalarMult(i.own.secret, e);
            && (read.Ok? <==>
                  && c.mac1(sigKey, msg[..60]) == msg[60..76] && ee != NO_POINT && se != NO_POINT
                  && Unsealed(c, secrets + [ee, se], parts + [e], z).Some?)
            && (read.Ok? ==> At(c, i2.sym, secrets + [ee, se], parts + [e, z]))
  {
    hide At, Unsealed, MixHash, MixKey, DecryptAndHash;
    assert Zeros(DHLEN) == NO_POINT;
    var e, z := msg[12..44], msg[44..60];
    var ee, se := c.scalarMult(i.eph.secret, e), c.scalarMult(i.own.secret, e);
    HashedAt(c, i.sym, secrets, parts, e, parts + [e]);
    var h := MixHash(c, i.sym, e);
    KeyedAt(c, h, secrets, parts + [e], ee, secrets + [ee]);
    var k1 := MixKey(c, h, ee);
    KeyedAt(c, k1, secrets + [ee], parts + [e], se, secrets + [ee, se]);
    var k2 := MixKey(c, k1, se);
    UnsealedAt(c, k2, secrets + [ee, se], parts + [e], z, parts + [e, z]);
  }

  // ---------- the keys ----------

  // Both keys and the hash of a handshake with these secrets and parts, as the initiator holds them.
  function Derived(c: Suite, secrets: seq<bytes>, parts: seq<bytes>): H.HandshakeResult {
    H.HandshakeResult(
      Link(c, KeyChain(c, secrets), []), SealingKey(c, KeyChain(c, secrets), []), HashChain(c, parts))
  }

  function Swapped(keys: H.HandshakeResult): H.HandshakeResult {
    H.HandshakeResult(keys.recvKey, keys.sendKey, keys.hash)
  }

  // Whoever answers: once a second message is taken, the initiator's keys are the end of the chain through es, ss,
  // ee and se, and its hash that of the chain over all six parts.
  lemma InitiatorDerives(c: Suite, own: KeyPair, responder: bytes, eph: bytes, index: u32, time: u64,
                         sigKey: bytes, cookie: bytes, reply: bytes)
    requires Laws(c) && |own.public| == DHLEN && |cookie| == H.MAC_BYTES && |reply| == H.MSG2_SIZE
    ensures var (m, i1) := H.WriteInitiation(c, H.NewInitiator(c, own, responder), eph, index, time, sigKey, cookie);
            var (read, i2) := H.ReadResponse(c, i1, reply, sigKey);
            m.Ok? && read.Ok? ==>
              && |m.value| == H.MSG1_SIZE
              && H.FinalizeInitiator(c, i2)
                 == Derived(c, [c.scalarMult(eph, responder), c.scalarMult(own.secret, responder),
                                c.scalarMult(eph, reply[12..44]), c.scalarMult(own.secret, reply[12..44])],
                            [responder, m.value[8..40], m.value[40..88], m.value[88..112],
                             reply[12..44], reply[44..60]])
  {
    hide H.WriteInitiation, H.ReadResponse, Sealed, Unsealed;
    var (m, i1) := H.WriteInitiation(c, H.NewInitiator(c, own, responder), eph, index, time, sigKey, cookie);
    if m.Ok? {
      InitiationSpelled(c, own, responder, eph, index, time, sigKey, cookie);
      InitiationParts(c, own, responder, eph, index, time, sigKey, cookie);
      var es, ss, re := c.scalarMult(eph, responder), c.scalarMult(own.secret, responder), reply[12..44];
      var parts := [responder, m.value[8..40], m.value[40..88], m.value[88..112]];
      ResponseAccepted(c, i1, reply, sigKey, [es, ss], parts);
      hide KeyChain, HashChain;
      assert [es, ss] + [c.scalarMult(eph, re), c.scalarMult(own.secret, re)]
          == [es, ss, c.scalarMult(eph, re), c.scalarMult(own.secret, re)];
      assert parts + [re, reply[44..60]]
          == [responder, m.value[8..40], m.value[40..88], m.value[88..112], re, reply[44..60]];
    }
  }

  lemma PartsOfInitiation(c: Suite, m: bytes, index: u32, e: bytes, s: bytes, t: bytes, sigKey: bytes, cookie: bytes)
    requires Laws(c) && |e| == 32 && |s| == 48 && |t| == 24 && |cookie| == H.MAC_BYTES
    requires var body := [1, 0, 0, 0] + U32Bytes(index) + e + s + t; m == body + c.mac1(sigKey, body) + cookie
    ensures |m| == H.MSG1_SIZE && m[8..40] == e && m[40..88] == s && m[88..112] == t
  {
    H.Layout1(c, index, e, s, t, sigKey, cookie);
  }

  // Whoever asked: once a first message is taken and answered, the responder's keys are the end of the chain through
  // the same four secrets as it computes them, crossed.
  lemma ResponderDerives(c: Suite, own: KeyPair, msg: bytes, eph: bytes, from: u32, to: u32,
                         sigKey: bytes, cookie: bytes)
    requires Laws(c) && |msg| == H.MSG1_SIZE && |cookie| == H.MAC_BYTES
    ensures var (info, r1) := H.ReadInitiation(c, H.NewResponder(c, own), msg, sigKey);
            var (m, r2) := H.WriteResponse(c, r1, eph, from, to, sigKey, cookie);
            info.Ok? && m.Ok? ==>
              var peer := info.value.initiatorStatic;
              && |m.value| == H.MSG2_SIZE
              && H.FinalizeResponder(c, r2)
                 == Swapped(Derived(c, [c.scalarMult(own.secret, msg[8..40]), c.scalarMult(own.secret, peer),
                                        c.scalarMult(eph, msg[8..40]), c.scalarMult(eph, peer)],
                                    [own.public, msg[8..40], msg[40..88], msg[88..112],
                                     m.value[12..44], m.value[44..60]]))
  {
    hide H.WriteResponse, H.ReadInitiation, Derived, At, Unsealed, H.FinalizeResponder;
    var (info, r1) := H.ReadInitiation(c, H.NewResponder(c, own), msg, sigKey);
    if info.Ok? {
      InitiationAccepted(c, own, msg, sigKey);
      var peer, e1 := info.value.initiatorStatic, msg[8..40];
      var es, ss := c.scalarMult(own.secret, e1), c.scalarMult(own.secret, peer);
      var parts := [own.public, e1, msg[40..88], msg[88..112]];
      AnswerDerives(c, r1, eph, from, to, sigKey, cookie, [es, ss], parts);
      var m := H.WriteResponse(c, r1, eph, from, to, sigKey, cookie).0;
      if m.Ok? {
        assert [es, ss] + [c.scalarMult(eph, e1), c.scalarMult(eph, peer)]
            == [es, ss, c.scalarMult(eph, e1), c.scalarMult(eph, peer)];
        assert parts + [m.value[12..44], m.value[44..60]]
            == [own.public, e1, msg[40..88], msg[88..112], m.value[12..44], m.value[44..60]];
      }
    }
  }

  lemma AnswerDerives(c: Suite, r: H.ResponderState, eph: bytes, from: u32, to: u32, sigKey: bytes, cookie: bytes,
                      secrets: seq<bytes>, parts: seq<bytes>)
    requires Laws(c) && At(c, r.sym, secrets, parts) && |cookie| == H.MAC_BYTES
    ensures var (m, r2) := H.WriteResponse(c, r, eph, from, to, sigKey, cookie);
            m.Ok? ==>
              && |m.value| == H.MSG2_SIZE && m.value[12..44] == c.scalarMult(eph, c.base)
              && H.FinalizeResponder(c, r2)
                 == Swapped(Derived(c, secrets + [c.scalarMult(eph, r.re), c.scalarMult(eph, r.remote)],
                                    parts + [m.value[12..44], m.value[44..60]]))
  {
    ResponseSpelled(c, r, eph, from, to, sigKey, cookie, secrets, parts);
    hide H.WriteResponse, Sealed, KeyChain, HashChain;
    var m := H.WriteResponse(c, r, eph, from, to, sigKey, cookie).0;
    if m.Ok? {
      var longer := secrets + [c.scalarMult(eph, r.re), c.scalarMult(eph, r.remote)];
      H.PublicLength(c, eph);
      SealedNothing(c, longer, parts + [c.scalarMult(eph, c.base)]);
      PartsOfResponse(c, m.value, from, to, c.scalarMult(eph, c.base),
                      Sealed(c, longer, parts + [c.scalarMult(eph, c.base)], []), sigKey, cookie);
    }
  }

  lemma SealedNothing(c: Suite, secrets: seq<bytes>, parts: seq<bytes>)
    requires Laws(c) && secrets != []
    ensures |Sealed(c, secrets, parts, [])| == TAGLEN
  {
  }

  lemma PartsOfResponse(c: Suite, m: bytes, from: u32, to: u32, e: bytes, z: bytes, sigKey: bytes, cookie: bytes)
    requires Laws(c) && |e| == 32 && |z| == 16 && |cookie| == H.MAC_BYTES
    requires var body := [2, 0, 0, 0] + U32Bytes(from) + U32Bytes(to) + e + z; m == body + c.mac1(sigKey, body) + cookie
    ensures |m| == H.MSG2_SIZE && m[12..44] == e && m[44..60] == z
  {
    H.Layout2(c, from, to, e, z, sigKey, cookie);
  }

  // A whole honest handshake between two secret keys: unless one of the four secrets is no point, both ends finish,
  // with the keys of the chain through the four secrets, one's sending key the other's receiving key.
  lemma HonestKeys(c: Suite, own: bytes, peer: bytes, eph1: bytes, eph2: bytes, index1: u32, index2: u32,
                   time: u64, sigKey: bytes, cookie1: bytes, cookie2: bytes)
    requires Laws(c) && |own| == |peer| == |eph1| == |eph2| == DHLEN && |cookie1| == |cookie2| == H.MAC_BYTES
    requires c.scalarMult(eph1, c.scalarMult(peer, c.base)) != NO_POINT
    requires c.scalarMult(own, c.scalarMult(peer, c.base)) != NO_POINT
    requires c.scalarMult(eph1, c.scalarMult(eph2, c.base)) != NO_POINT
    requires c.scalarMult(own, c.scalarMult(eph2, c.base)) != NO_POINT
    ensures var p, q := KeyPair(own, c.scalarMult(own, c.base)), KeyPair(peer, c.scalarMult(peer, c.base));
            var (m1, i1) := H.WriteInitiation(c, H.NewInitiator(c, p, q.public), eph1, index1, time, sigKey, cookie1);
            && m1.Ok? && |m1.value| == H.MSG1_SIZE
            && var (info, r1) := H.ReadInitiation(c, H.NewResponder(c, q), m1.value, sigKey);
            && info == Ok(H.InitiationInfo(index1, p.public, time))
            && var (m2, r2) := H.WriteResponse(c, r1, eph2, index2, index1, sigKey, cookie2);
            && m2.Ok? && |m2.value| == H.MSG2_SIZE
            && var (read, i2) := H.ReadResponse(c, i1, m2.value, sigKey);
            && read.Ok?
            && var e1, e2 := c.scalarMult(eph1, c.base), c.scalarMult(eph2, c.base);
            var keys := Derived(c, [c.scalarMult(eph1, q.public), c.scalarMult(own, q.public),
                                    c.scalarMult(eph1, e2), c.scalarMult(own, e2)],
                                [q.public, e1, m1.value[40..88], m1.value[88..112], e2, m2.value[44..60]]);
            H.FinalizeInitiator(c, i2) == keys && H.FinalizeResponder(c, r2) == Swapped(keys)
  {
    FourPoints(c, own, peer, eph1, eph2);
    H.HonestHandshake(c, own, peer, eph1, eph2, index1, index2, time, sigKey, cookie1, cookie2);
    var p, q := KeyPair(own, c.scalarMult(own, c.base)), KeyPair(peer, c.scalarMult(peer, c.base));
    assert p == FromSecret(c, own) && q == FromSecret(c, peer);
    H.PublicLength(c, own);
    hide Laws, Derived, H.WriteInitiation, H.ReadInitiation, H.WriteResponse, H.ReadResponse;
    var (m1, i1) := H.WriteInitiation(c, H.NewInitiator(c, p, q.public), eph1, index1, time, sigKey, cookie1);
    var r1 := H.ReadInitiation(c, H.NewResponder(c, q), m1.value, sigKey).1;
    var m2 := H.WriteResponse(c, r1, eph2, index2, index1, sigKey, cookie2).0;
    InitiatorDerives(c, p, q.public, eph1, index1, time, sigKey, cookie1, m2.value);
    EphemeralsSent(c, p, q, eph1, eph2, index1, index2, time, sigKey, cookie1, cookie2);
  }

  lemma FourPoints(c: Suite, own: bytes, peer: bytes, eph1: bytes, eph2: bytes)
    requires Laws(c) && |own| == |peer| == |eph1| == |eph2| == DHLEN
    requires c.scalarMult(eph1, c.scalarMult(peer, c.base)) != NO_POINT
    requires c.scalarMult(own, c.scalarMult(peer, c.base)) != NO_POINT
    requires c.scalarMult(eph1, c.scalarMult(eph2, c.base)) != NO_POINT
    requires c.scalarMult(own, c.scalarMult(eph2, c.base)) != NO_POINT
    ensures Agree(c, eph1, FromSecret(c, peer).public).Ok? && Agree(c, own, FromSecret(c, peer).public).Ok?
    ensures Agree(c, eph2, FromSecret(c, eph1).public).Ok? && Agree(c, eph2, FromSecret(c, own).public).Ok?
  {
    assert Zeros(DHLEN) == NO_POINT;
    Commutes(c, FromSecret(c, eph1), FromSecret(c, eph2));
    Commutes(c, FromSecret(c, own), FromSecret(c, eph2));
  }

  // The two ephemeral keys stand in the messages.
  lemma EphemeralsSent(c: Suite, p: KeyPair, q: KeyPair, eph1: bytes, eph2: bytes, index1: u32, index2: u32,
                       time: u64, sigKey: bytes, cookie1: bytes, cookie2: bytes)
    requires Laws(c) && |p.public| == DHLEN && |cookie1| == |cookie2| == H.MAC_BYTES
    ensures var m1 := H.WriteInitiation(c, H.NewInitiator(c, p, q.public), eph1, index1, time, sigKey, cookie1).0;
            m1.Ok? ==>
              && |m1.value| == H.MSG1_SIZE && m1.value[8..40] == c.scalarMult(eph1, c.base)
              && var (info, r1) := H.ReadInitiation(c, H.NewResponder(c, q), m1.value, sigKey);
              var m2 := H.WriteResponse(c, r1, eph2, index2, index1, sigKey, cookie2).0;
              info.Ok? && m2.Ok? ==> |m2.value| == H.MSG2_SIZE && m2.value[12..44] == c.scalarMult(eph2, c.base)
  {
    hide H.WriteInitiation, H.ReadInitiation, H.WriteResponse, H.FinalizeResponder, At, Derived, Sealed, Unsealed;
    var m1 := H.WriteInitiation(c, H.NewInitiator(c, p, q.public), eph1, index1, time, sigKey, cookie1).0;
    if m1.Ok? {
      InitiationParts(c, p, q.public, eph1, index1, time, sigKey, cookie1);
      var (info, r1) := H.ReadInitiation(c, H.NewResponder(c, q), m1.value, sigKey);
      if info.Ok? {
        InitiationAccepted(c, q, m1.value, sigKey);
        var es, ss := c.scalarMult(q.secret, m1.value[8..40]), c.scalarMult(q.secret, info.value.initiatorStatic);
        AnswerDerives(c, r1, eph2, index2, index1, sigKey, cookie2, [es, ss],
                      [q.public, m1.value[8..40], m1.value[40..88], m1.value[88..112]]);
      }
    }
  }

  lemma InitiationParts(c: Suite, own: KeyPair, responder: bytes, eph: bytes, index: u32, time: u64,
                        sigKey: bytes, cookie: bytes)
    requires Laws(c) && |own.public| == DHLEN && |cookie| == H.MAC_BYTES
    requires H.WriteInitiation(c, H.NewInitiator(c, own, responder), eph, index, time, sigKey, cookie).0.Ok?
    ensures var (m, i1) := H.WriteInitiation(c, H.NewInitiator(c, own, responder), eph, index, time, sigKey, cookie);
            var es, ss := c.scalarMult(eph, responder), c.scalarMult(own.secret, responder);
            var e := c.scalarMult(eph, c.base);
            && |m.value| == H.MSG1_SIZE && m.value[8..40] == e
            && m.value[40..88] == Sealed(c, [es], [responder, e], own.public)
            && m.value[88..112] == Sealed(c, [es, ss], [responder, e, m.value[40..88]], U64Bytes(time))
  {
    InitiationSpelled(c, own, responder, eph, index, time, sigKey, cookie);
    hide H.WriteInitiation;
    var m := H.WriteInitiation(c, H.NewInitiator(c, own, responder), eph, index, time, sigKey, cookie).0;
    var es, ss, e := c.scalarMult(eph, responder), c.scalarMult(own.secret, responder), c.scalarMult(eph, c.base);
    var s := Sealed(c, [es], [responder, e], own.public);
    PartsOfInitiation(c, m.value, index, e, s, Sealed(c, [es, ss], [responder, e, s], U64Bytes(time)), sigKey, cookie);
  }
}
