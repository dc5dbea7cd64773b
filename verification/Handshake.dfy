/** The two ends of the Noise_IK handshake with their 144- and 92-byte messages, and the proof that they are
    the IK pattern of section 7.5 of the Noise Protocol Framework and stay in step. */
module Handshake {
  import opened Base
  import opened Noise
  import opened Wire

  const MSG1_SIZE := 144
  const MSG2_SIZE := 92
  const MAC_BYTES := 16

  // -> e, es, s, ss   then   <- e, ee, se
  const INITIATION: seq<Token> := [E, ES, S, SS]
  const RESPONSE: seq<Token> := [E, EE, SE]

  datatype InitiatorState = InitiatorState(eph: KeyPair, own: KeyPair, re: bytes, responder: bytes, sym: Symmetric)

  datatype ResponderState = ResponderState(own: KeyPair, eph: KeyPair, re: bytes, remote: bytes, sym: Symmetric)

  datatype InitiationInfo = InitiationInfo(senderIndex: u32, initiatorStatic: bytes, timestamp: u64)

  datatype HandshakeResult = HandshakeResult(sendKey: bytes, recvKey: bytes, hash: bytes)

  // The pre-message: both ends hash the responder's static key first.
  function NewInitiator(c: Suite, own: KeyPair, responder: bytes): InitiatorState {
    InitiatorState(FromSecret(c, Zeros(32)), own, Zeros(32), responder, MixHash(c, Start(c), responder))
  }

  function NewResponder(c: Suite, own: KeyPair): ResponderState {
    ResponderState(own, FromSecret(c, Zeros(32)), Zeros(32), Zeros(32), MixHash(c, Start(c), own.public))
  }

  // ---------- message layout ----------

  function Body1(senderIndex: u32, eph: bytes, encStatic: bytes, encTime: bytes): bytes {
    [1, 0, 0, 0] + U32Bytes(senderIndex) + eph + encStatic + encTime
  }

  function Body2(senderIndex: u32, receiverIndex: u32, eph: bytes, encNothing: bytes): bytes {
    [2, 0, 0, 0] + U32Bytes(senderIndex) + U32Bytes(receiverIndex) + eph + encNothing
  }

  function WithMacs(c: Suite, body: bytes, sigKey: bytes, cookie: bytes): bytes {
    body + c.mac1(sigKey, body) + cookie
  }

  // ---------- the four steps ----------

  function WriteInitiation(c: Suite, i: InitiatorState, ephSecret: bytes, senderIndex: u32, timestamp: u64,
                           sigKey: bytes, cookie: bytes): (r: (Result<bytes, Error>, InitiatorState))
    ensures r.0.Ok? ==> r.1.sym.n <= 1 && r.1.eph == FromSecret(c, ephSecret) && r.1.own == i.own
    ensures r.0.Ok? <==> Agree(c, ephSecret, i.responder).Ok? && Agree(c, i.own.secret, i.responder).Ok?
  {
    var eph := FromSecret(c, ephSecret);
    var i0 := i.(eph := eph, sym := MixHash(c, i.sym, eph.public));
    match Agree(c, eph.secret, i.responder)
    case Err(e) => (Err(e), i0)
    case Ok(es) =>
      var (s1, encStatic) := EncryptAndHash(c, MixKey(c, i0.sym, es), i.own.public);
      match Agree(c, i.own.secret, i.responder)
      case Err(e) => (Err(e), i0.(sym := s1))
      case Ok(ss) =>
        var (s2, encTime) := EncryptAndHash(c, MixKey(c, s1, ss), U64Bytes(timestamp));
        (Ok(WithMacs(c, Body1(senderIndex, eph.public, encStatic, encTime), sigKey, cookie)), i0.(sym := s2))
  }

  function ReadInitiation(c: Suite, r: ResponderState, msg: bytes, sigKey: bytes)
    : (w: (Result<InitiationInfo, Error>, ResponderState))
    requires |msg| == MSG1_SIZE && Laws(c)
    ensures w.0.Ok? ==> w.1.sym.n <= 1
  {
    if c.mac1(sigKey, msg[..112]) != msg[112..128] then (Err(Mac1Failed), r)
    else
      var r0 := r.(re := msg[8..40], sym := MixHash(c, r.sym, msg[8..40]));
      match Agree(c, r.own.secret, r0.re)
      case Err(e) => (Err(e), r0)
      case Ok(es) =>
        var s1 := MixKey(c, r0.sym, es);
        match DecryptAndHash(c, s1, msg[40..88])
        case Err(e) => (Err(e), r0.(sym := s1))
        case Ok((s2, peer)) =>
          var r1 := r0.(remote := peer, sym := s2);
          match Agree(c, r.own.secret, peer)
          case Err(e) => (Err(e), r1)
          case Ok(ss) =>
            var s3 := MixKey(c, s2, ss);
            match DecryptAndHash(c, s3, msg[88..112])
            case Err(e) => (Err(e), r1.(sym := s3))
            case Ok((s4, time)) =>
              (Ok(InitiationInfo(U32Of(msg[4..8]), peer, U64Of(time))), r1.(sym := s4))
  }

  function WriteResponse(c: Suite, r: ResponderState, ephSecret: bytes, senderIndex: u32, receiverIndex: u32,
                         sigKey: bytes, cookie: bytes): (w: (Result<bytes, Error>, ResponderState))
    ensures w.0.Ok? <==> Agree(c, ephSecret, r.re).Ok? && Agree(c, ephSecret, r.remote).Ok?
  {
    var eph := FromSecret(c, ephSecret);
    var r0 := r.(eph := eph, sym := MixHash(c, r.sym, eph.public));
    match Agree(c, eph.secret, r.re)
    case Err(e) => (Err(e), r0)
    case Ok(ee) =>
      var s1 := MixKey(c, r0.sym, ee);
      match Agree(c, eph.secret, r.remote)
      case Err(e) => (Err(e), r0.(sym := s1))
      case Ok(se) =>
        var (s2, encNothing) := EncryptAndHash(c, MixKey(c, s1, se), []);
        (Ok(WithMacs(c, Body2(senderIndex, receiverIndex, eph.public, encNothing), sigKey, cookie)), r0.(sym := s2))
  }

  function ReadResponse(c: Suite, i: InitiatorState, msg: bytes, sigKey: bytes): (Result<(), Error>, InitiatorState)
    requires |msg| == MSG2_SIZE
  {
    if c.mac1(sigKey, msg[..60]) != msg[60..76] then (Err(Mac1Failed), i)
    else
      var i0 := i.(re := msg[12..44], sym := MixHash(c, i.sym, msg[12..44]));
      match Agree(c, i.eph.secret, i0.re)
      case Err(e) => (Err(e), i0)
      case Ok(ee) =>
        var s1 := MixKey(c, i0.sym, ee);
        match Agree(c, i.own.secret, i0.re)
        case Err(e) => (Err(e), i0.(sym := s1))
        case Ok(se) =>
          var s2 := MixKey(c, s1, se);
          match DecryptAndHash(c, s2, msg[44..60])
          case Err(e) => (Err(e), i0.(sym := s2))
          case Ok((s3, _)) => (Ok(()), i0.(sym := s3))
  }

  function FinalizeInitiator(c: Suite, i: InitiatorState): HandshakeResult {
    var (c1, c2) := Hkdf2(c, i.sym.ck, []);
    HandshakeResult(c1, c2, i.sym.h)
  }

  function FinalizeResponder(c: Suite, r: ResponderState): HandshakeResult {
    var (c1, c2) := Hkdf2(c, r.sym.ck, []);
    HandshakeResult(c2, c1, r.sym.h)
  }

  // ---------- the steps are the IK pattern ----------

  // The two ends as parties of the pattern, before the first message and after it.
  function Opening(i: InitiatorState): Party {
    Party(i.sym, true, i.own, None, Some(i.responder), None)
  }

  function Waiting(i: InitiatorState): Party {
    Party(i.sym, true, i.own, Some(i.eph), Some(i.responder), None)
  }

  function Listening(r: ResponderState): Party {
    Party(r.sym, false, r.own, None, None, None)
  }

  function Answering(r: ResponderState): Party {
    Party(r.sym, false, r.own, None, Some(r.remote), Some(r.re))
  }

  function Done(i: InitiatorState): Party {
    Waiting(i).(re := Some(i.re))
  }

  function Answered(r: ResponderState): Party {
    Answering(r).(e := Some(r.eph))
  }

  lemma BodyLayout1(senderIndex: u32, eph: bytes, encStatic: bytes, encTime: bytes)
    requires |eph| == 32 && |encStatic| == 48 && |encTime| == 24
    ensures var body := Body1(senderIndex, eph, encStatic, encTime);
            && |body| == 112 && body[..4] == [1, 0, 0, 0] && body[4..8] == U32Bytes(senderIndex)
            && body[8..40] == eph && body[40..88] == encStatic && body[88..112] == encTime
            && body[8..112] == eph + (encStatic + encTime)
  {
  }

  lemma Layout1(c: Suite, senderIndex: u32, eph: bytes, encStatic: bytes, encTime: bytes, sigKey: bytes, cookie: bytes)
    requires Laws(c) && |eph| == 32 && |encStatic| == 48 && |encTime| == 24 && |cookie| == MAC_BYTES
    ensures var body := Body1(senderIndex, eph, encStatic, encTime);
            var msg := WithMacs(c, body, sigKey, cookie);
            && |msg| == MSG1_SIZE && msg[..112] == body
            && msg[..4] == [1, 0, 0, 0] && msg[4..8] == U32Bytes(senderIndex)
            && msg[8..40] == eph && msg[40..88] == encStatic && msg[88..112] == encTime
            && msg[8..112] == eph + (encStatic + encTime)
            && msg[112..128] == c.mac1(sigKey, body) && msg[128..] == cookie
  {
    BodyLayout1(senderIndex, eph, encStatic, encTime);
    hide Body1;
    var body := Body1(senderIndex, eph, encStatic, encTime);
    var msg := WithMacs(c, body, sigKey, cookie);
    assert msg[..112] == body;
    assert msg[..4] == body[..4] && msg[4..8] == body[4..8] && msg[8..40] == body[8..40];
    assert msg[40..88] == body[40..88] && msg[88..112] == body[88..112] && msg[8..112] == body[8..112];
  }

  lemma Layout2(c: Suite, senderIndex: u32, receiverIndex: u32, eph: bytes, encNothing: bytes,
                sigKey: bytes, cookie: bytes)
    requires Laws(c) && |eph| == 32 && |encNothing| == 16 && |cookie| == MAC_BYTES
    ensures var body := Body2(senderIndex, receiverIndex, eph, encNothing);
            var msg := WithMacs(c, body, sigKey, cookie);
            && |msg| == MSG2_SIZE && msg[..60] == body
            && msg[..4] == [2, 0, 0, 0] && msg[4..8] == U32Bytes(senderIndex) && msg[8..12] == U32Bytes(receiverIndex)
            && msg[12..44] == eph && msg[44..60] == encNothing
            && msg[12..60] == eph + encNothing
            && msg[60..76] == c.mac1(sigKey, body) && msg[76..] == cookie
  {
  }

  // The tokens of the two messages, spelled out for writer and reader.
  function SpelledInitiation(c: Suite, p: Party, ephSecret: bytes): Result<(Party, bytes), Error>
    requires Room(p.sym, 4) && p.initiator && p.rs.Some?
  {
    var eph := FromSecret(c, ephSecret);
    var es :- Agree(c, ephSecret, p.rs.value);
    var (s1, encStatic) := EncryptAndHash(c, MixKey(c, MixHash(c, p.sym, eph.public), es), p.s.public);
    var ss :- Agree(c, p.s.secret, p.rs.value);
    Ok((p.(e := Some(eph), sym := MixKey(c, s1, ss)), eph.public + encStatic))
  }

  function SpelledResponse(c: Suite, p: Party, ephSecret: bytes): Result<(Party, bytes), Error>
    requires Room(p.sym, 3) && !p.initiator && p.rs.Some? && p.re.Some?
  {
    var eph := FromSecret(c, ephSecret);
    var ee :- Agree(c, ephSecret, p.re.value);
    var se :- Agree(c, ephSecret, p.rs.value);
    Ok((p.(e := Some(eph), sym := MixKey(c, MixKey(c, MixHash(c, p.sym, eph.public), ee), se)), eph.public))
  }

  function SpelledInitiationRead(c: Suite, p: Party, msg: bytes): Result<(Party, bytes), Error>
    requires Room(p.sym, 4) && !p.initiator && |msg| >= 80
  {
    var es :- Agree(c, p.s.secret, msg[..32]);
    var got :- DecryptAndHash(c, MixKey(c, MixHash(c, p.sym, msg[..32]), es), msg[32..80]);
    var ss :- Agree(c, p.s.secret, got.1);
    Ok((p.(re := Some(msg[..32]), rs := Some(got.1), sym := MixKey(c, got.0, ss)), msg[80..]))
  }

  function SpelledResponseRead(c: Suite, p: Party, msg: bytes): Result<(Party, bytes), Error>
    requires Room(p.sym, 3) && p.initiator && p.e.Some? && |msg| >= 32
  {
    var ee :- Agree(c, p.e.value.secret, msg[..32]);
    var se :- Agree(c, p.s.secret, msg[..32]);
    Ok((p.(re := Some(msg[..32]), sym := MixKey(c, MixKey(c, MixHash(c, p.sym, msg[..32]), ee), se)), msg[32..]))
  }

  lemma InitiationTokens(c: Suite, p: Party, ephSecret: bytes)
    requires Room(p.sym, 4) && p.initiator && p.rs.Some?
    ensures WriteTokens(c, p, INITIATION, ephSecret) == SpelledInitiation(c, p, ephSecret)
  {
    hide MixHash, MixKey, EncryptAndHash, Agree;
    assert INITIATION[1..] == [ES, S, SS] && [ES, S, SS][1..] == [S, SS] && [S, SS][1..] == [SS];
    var eph := FromSecret(c, ephSecret);
    var p0 := p.(e := Some(eph), sym := MixHash(c, p.sym, eph.public));
    assert WriteToken(c, p, E, ephSecret) == Ok((p0, eph.public));
    if Agree(c, ephSecret, p.rs.value).Ok? {
      var p1 := p0.(sym := MixKey(c, p0.sym, Agree(c, ephSecret, p.rs.value).value));
      assert WriteToken(c, p0, ES, ephSecret) == Ok((p1, []));
      var (s1, encStatic) := EncryptAndHash(c, p1.sym, p.s.public);
      assert WriteToken(c, p1, S, ephSecret) == Ok((p1.(sym := s1), encStatic));
      assert eph.public + ([] + (encStatic + ([] + []))) == eph.public + encStatic;
    }
  }

  lemma ResponseTokens(c: Suite, p: Party, ephSecret: bytes)
    requires Room(p.sym, 3) && !p.initiator && p.rs.Some? && p.re.Some?
    ensures WriteTokens(c, p, RESPONSE, ephSecret) == SpelledResponse(c, p, ephSecret)
  {
    hide MixHash, MixKey, Agree;
    assert RESPONSE[1..] == [EE, SE] && [EE, SE][1..] == [SE];
    var eph := FromSecret(c, ephSecret);
    var p0 := p.(e := Some(eph), sym := MixHash(c, p.sym, eph.public));
    assert WriteToken(c, p, E, ephSecret) == Ok((p0, eph.public));
    if Agree(c, ephSecret, p.re.value).Ok? {
      var p1 := p0.(sym := MixKey(c, p0.sym, Agree(c, ephSecret, p.re.value).value));
      assert WriteToken(c, p0, EE, ephSecret) == Ok((p1, []));
      assert eph.public + ([] + ([] + [])) == eph.public;
    }
  }

  lemma InitiationTokensRead(c: Suite, p: Party, msg: bytes)
    requires Room(p.sym, 4) && !p.initiator && |msg| >= 80
    ensures ReadTokens(c, p, INITIATION, msg) == SpelledInitiationRead(c, p, msg)
  {
    hide MixHash, MixKey, DecryptAndHash, Agree;
    assert INITIATION[1..] == [ES, S, SS] && [ES, S, SS][1..] == [S, SS] && [S, SS][1..] == [SS];
    var rest := msg[32..];
    assert rest[..48] == msg[32..80] && rest[48..] == msg[80..];
    var p0 := p.(re := Some(msg[..32]), sym := MixHash(c, p.sym, msg[..32]));
    assert ReadToken(c, p, E, msg) == Ok((p0, rest));
    if Agree(c, p.s.secret, msg[..32]).Ok? {
      var p1 := p0.(sym := MixKey(c, p0.sym, Agree(c, p.s.secret, msg[..32]).value));
      assert ReadToken(c, p0, ES, rest) == Ok((p1, rest));
      var got := DecryptAndHash(c, p1.sym, rest[..48]);
      if got.Ok? {
        var p2 := p1.(rs := Some(got.value.1), sym := got.value.0);
        assert ReadToken(c, p1, S, rest) == Ok((p2, rest[48..]));
      }
    }
  }

  lemma ResponseTokensRead(c: Suite, p: Party, msg: bytes)
    requires Room(p.sym, 3) && p.initiator && p.e.Some? && |msg| >= 32
    ensures ReadTokens(c, p, RESPONSE, msg) == SpelledResponseRead(c, p, msg)
  {
    hide MixHash, MixKey, Agree;
    assert RESPONSE[1..] == [EE, SE] && [EE, SE][1..] == [SE];
    var p0 := p.(re := Some(msg[..32]), sym := MixHash(c, p.sym, msg[..32]));
    assert ReadToken(c, p, E, msg) == Ok((p0, msg[32..]));
    if Agree(c, p.e.value.secret, msg[..32]).Ok? {
      var p1 := p0.(sym := MixKey(c, p0.sym, Agree(c, p.e.value.secret, msg[..32]).value));
      assert ReadToken(c, p0, EE, msg[32..]) == Ok((p1, msg[32..]));
    }
  }

  // A keyed encryption is sixteen bytes longer than its plaintext.
  lemma EncryptedLength(c: Suite, st: Symmetric, pt: bytes)
    requires Laws(c) && Ready(st) && st.hasKey
    ensures |EncryptAndHash(c, st, pt).1| == |pt| + TAGLEN
  {
  }

  lemma DecryptedLength(c: Suite, st: Symmetric, ct: bytes)
    requires Laws(c) && Ready(st) && st.hasKey && DecryptAndHash(c, st, ct).Ok?
    ensures |ct| == |DecryptAndHash(c, st, ct).value.1| + TAGLEN
  {
  }

  lemma PublicLength(c: Suite, secret: bytes)
    requires Laws(c)
    ensures |FromSecret(c, secret).public| == DHLEN
  {
  }

  lemma WriteInitiationIsNoise(c: Suite, i: InitiatorState, ephSecret: bytes, senderIndex: u32, timestamp: u64,
                               sigKey: bytes, cookie: bytes)
    requires Laws(c) && Room(i.sym, 4) && |i.own.public| == DHLEN && |cookie| == MAC_BYTES
    ensures var (res, i1) := WriteInitiation(c, i, ephSecret, senderIndex, timestamp, sigKey, cookie);
            var noise := WriteMessage(c, Opening(i), INITIATION, ephSecret, U64Bytes(timestamp));
            if noise.Err? then res == Err(noise.error)
            else
              && res.Ok? && |res.value| == MSG1_SIZE
              && noise.value == (Waiting(i1), res.value[8..112])
              && res.value[..4] == [1, 0, 0, 0] && res.value[4..8] == U32Bytes(senderIndex)
              && res.value[112..128] == c.mac1(sigKey, res.value[..112]) && res.value[128..] == cookie
  {
    InitiationTokens(c, Opening(i), ephSecret);
    hide WriteTokens, MixHash, MixKey, EncryptAndHash, Agree, Body1, WithMacs;
    var eph := FromSecret(c, ephSecret);
    PublicLength(c, ephSecret);
    if Agree(c, ephSecret, i.responder).Ok? {
      var k1 := MixKey(c, MixHash(c, i.sym, eph.public), Agree(c, ephSecret, i.responder).value);
      EncryptedLength(c, k1, i.own.public);
      var (s1, encStatic) := EncryptAndHash(c, k1, i.own.public);
      if Agree(c, i.own.secret, i.responder).Ok? {
        var k2 := MixKey(c, s1, Agree(c, i.own.secret, i.responder).value);
        EncryptedLength(c, k2, U64Bytes(timestamp));
        var encTime := EncryptAndHash(c, k2, U64Bytes(timestamp)).1;
        Layout1(c, senderIndex, eph.public, encStatic, encTime, sigKey, cookie);
        assert eph.public + encStatic + encTime == eph.public + (encStatic + encTime);
      }
    }
  }

  lemma WriteResponseIsNoise(c: Suite, r: ResponderState, ephSecret: bytes, senderIndex: u32, receiverIndex: u32,
                             sigKey: bytes, cookie: bytes)
    requires Laws(c) && Room(r.sym, 3) && |cookie| == MAC_BYTES
    ensures var (res, r1) := WriteResponse(c, r, ephSecret, senderIndex, receiverIndex, sigKey, cookie);
            var noise := WriteMessage(c, Answering(r), RESPONSE, ephSecret, []);
            if noise.Err? then res == Err(noise.error)
            else
              && res.Ok? && |res.value| == MSG2_SIZE
              && noise.value == (Answered(r1), res.value[12..60])
              && res.value[..4] == [2, 0, 0, 0]
              && res.value[4..8] == U32Bytes(senderIndex) && res.value[8..12] == U32Bytes(receiverIndex)
              && res.value[60..76] == c.mac1(sigKey, res.value[..60]) && res.value[76..] == cookie
  {
    ResponseTokens(c, Answering(r), ephSecret);
    hide WriteTokens, MixHash, MixKey, EncryptAndHash, Agree, Body2, WithMacs;
    var eph := FromSecret(c, ephSecret);
    PublicLength(c, ephSecret);
    if Agree(c, ephSecret, r.re).Ok? && Agree(c, ephSecret, r.remote).Ok? {
      var k1 := MixKey(c, MixHash(c, r.sym, eph.public), Agree(c, ephSecret, r.re).value);
      var k2 := MixKey(c, k1, Agree(c, ephSecret, r.remote).value);
      EncryptedLength(c, k2, []);
      Layout2(c, senderIndex, receiverIndex, eph.public, EncryptAndHash(c, k2, []).1, sigKey, cookie);
    }
  }

  // Beyond the mac1 gate, which nothing passes that does not carry the right mac and which changes
  // nothing, reading is reading the pattern.
  lemma ReadInitiationIsNoise(c: Suite, r: ResponderState, msg: bytes, sigKey: bytes)
    requires Laws(c) && Room(r.sym, 4) && |msg| == MSG1_SIZE
    ensures var (res, r1) := ReadInitiation(c, r, msg, sigKey);
            var noise := ReadMessage(c, Listening(r), INITIATION, msg[8..112]);
            if msg[112..128] != c.mac1(sigKey, msg[..112]) then res == Err(Mac1Failed) && r1 == r
            else if noise.Err? then res == Err(noise.error) && res.error != Mac1Failed
            else
              && res.Ok? && noise.value == (Answering(r1), U64Bytes(res.value.timestamp))
              && res.value.initiatorStatic == r1.remote && U32Bytes(res.value.senderIndex) == msg[4..8]
              && r1.own == r.own
  {
    hide MixHash, MixKey, DecryptAndHash, ReadTokens, Agree;
    var body := msg[8..112];
    assert body[..32] == msg[8..40] && body[32..80] == msg[40..88] && body[80..] == msg[88..112];
    InitiationTokensRead(c, Listening(r), body);
    if msg[112..128] == c.mac1(sigKey, msg[..112]) {
      TimeLength(c, r, msg);
    }
    hide Laws;
  }

  // The sealed time is eight bytes long.
  lemma TimeLength(c: Suite, r: ResponderState, msg: bytes)
    requires Laws(c) && Room(r.sym, 4) && |msg| == MSG1_SIZE
    ensures Agree(c, r.own.secret, msg[8..40]).Ok? ==>
              var s1 := MixKey(c, MixHash(c, r.sym, msg[8..40]), Agree(c, r.own.secret, msg[8..40]).value);
              var got := DecryptAndHash(c, s1, msg[40..88]);
              got.Ok? && Agree(c, r.own.secret, got.value.1).Ok? ==>
                var s3 := MixKey(c, got.value.0, Agree(c, r.own.secret, got.value.1).value);
                var time := DecryptAndHash(c, s3, msg[88..112]);
                time.Ok? ==> |time.value.1| == 8
  {
    hide MixHash, DecryptAndHash, Agree;
    if Agree(c, r.own.secret, msg[8..40]).Ok? {
      var s1 := MixKey(c, MixHash(c, r.sym, msg[8..40]), Agree(c, r.own.secret, msg[8..40]).value);
      var got := DecryptAndHash(c, s1, msg[40..88]);
      if got.Ok? && Agree(c, r.own.secret, got.value.1).Ok? {
        var s3 := MixKey(c, got.value.0, Agree(c, r.own.secret, got.value.1).value);
        if DecryptAndHash(c, s3, msg[88..112]).Ok? {
          DecryptedLength(c, s3, msg[88..112]);
        }
      }
    }
  }

  lemma ReadResponseIsNoise(c: Suite, i: InitiatorState, msg: bytes, sigKey: bytes)
    requires Laws(c) && Room(i.sym, 3) && |msg| == MSG2_SIZE
    ensures var (res, i1) := ReadResponse(c, i, msg, sigKey);
            var noise := ReadMessage(c, Waiting(i), RESPONSE, msg[12..60]);
            if msg[60..76] != c.mac1(sigKey, msg[..60]) then res == Err(Mac1Failed) && i1 == i
            else if noise.Err? then res == Err(noise.error) && res.error != Mac1Failed
            else res.Ok? && noise.value.0 == Done(i1) && noise.value.1 == []
  {
    var body := msg[12..60];
    assert body[..32] == msg[12..44] && body[32..] == msg[44..60];
    ResponseTokensRead(c, Waiting(i), body);
    if msg[60..76] == c.mac1(sigKey, msg[..60]) && Agree(c, i.eph.secret, msg[12..44]).Ok?
       && Agree(c, i.own.secret, msg[12..44]).Ok? {
      var s1 := MixKey(c, MixHash(c, i.sym, msg[12..44]), Agree(c, i.eph.secret, msg[12..44]).value);
      var s2 := MixKey(c, s1, Agree(c, i.own.secret, msg[12..44]).value);
      if DecryptAndHash(c, s2, msg[44..60]).Ok? {
        DecryptedLength(c, s2, msg[44..60]);
      }
    }
    hide Laws, ReadTokens, MixHash, MixKey, DecryptAndHash;
  }

  // ---------- the two ends stay in step ----------

  lemma PatternsLegal()
    ensures Legal(INITIATION, true, false) && Reveals(INITIATION)
    ensures Legal(RESPONSE, false, true) && !Reveals(RESPONSE)
  {
    assert INITIATION[1..] == [ES, S, SS] && [ES, S, SS][1..] == [S, SS] && [S, SS][1..] == [SS];
    assert RESPONSE[1..] == [EE, SE] && [EE, SE][1..] == [SE];
  }

  lemma StartMirrored(c: Suite, own: bytes, peer: bytes)
    requires |own| == |peer| == DHLEN
    ensures Mirrored(c, Opening(NewInitiator(c, FromSecret(c, own), FromSecret(c, peer).public)),
                     Listening(NewResponder(c, FromSecret(c, peer))))
  {
  }

  lemma SameNumbers(a: u32, b: u32, x: u64, y: u64)
    requires U32Bytes(a) == U32Bytes(b) && U64Bytes(x) == U64Bytes(y)
    ensures a == b && x == y
  {
    U32RoundTrip(a);
    U32RoundTrip(b);
    U64RoundTrip(x);
    U64RoundTrip(y);
  }

  // The first message: written unless an agreement hits the identity, and what is written is read; the
  // responder recovers the initiator's static key, its index and the timestamp.
  lemma HonestInitiation(c: Suite, own: bytes, peer: bytes, ephSecret: bytes, senderIndex: u32, timestamp: u64,
                         sigKey: bytes, cookie: bytes)
    requires Laws(c) && |own| == |peer| == |ephSecret| == DHLEN && |cookie| == MAC_BYTES
    ensures var responder := FromSecret(c, peer);
            var i0 := NewInitiator(c, FromSecret(c, own), responder.public);
            var (m, i1) := WriteInitiation(c, i0, ephSecret, senderIndex, timestamp, sigKey, cookie);
            && (m.Ok? <==> Agree(c, ephSecret, responder.public).Ok? && Agree(c, own, responder.public).Ok?)
            && (m.Ok? ==>
                  && |m.value| == MSG1_SIZE && m.value[..4] == [1, 0, 0, 0]
                  && var (info, r1) := ReadInitiation(c, NewResponder(c, responder), m.value, sigKey);
                  && info == Ok(InitiationInfo(senderIndex, FromSecret(c, own).public, timestamp))
                  && Mirrored(c, Answering(r1), Waiting(i1)))
  {
    var responder := FromSecret(c, peer);
    var i0, r0 := NewInitiator(c, FromSecret(c, own), responder.public), NewResponder(c, responder);
    PublicLength(c, own);
    WriteInitiationIsNoise(c, i0, ephSecret, senderIndex, timestamp, sigKey, cookie);
    var (m, i1) := WriteInitiation(c, i0, ephSecret, senderIndex, timestamp, sigKey, cookie);
    hide Laws, Mirrored, WriteInitiation, ReadInitiation, ReadMessage, WriteMessage, MixHash, Legal, Reveals;
    hide FromSecret;
    if m.Ok? {
      StartMirrored(c, own, peer);
      PatternsLegal();
      MessageReadBack(c, Opening(i0), Listening(r0), INITIATION, ephSecret, U64Bytes(timestamp),
                      Waiting(i1), m.value[8..112]);
      ReadInitiationIsNoise(c, r0, m.value, sigKey);
      var info := ReadInitiation(c, r0, m.value, sigKey).0.value;
      SameNumbers(senderIndex, info.senderIndex, timestamp, info.timestamp);
      MirroredBothWays(c, Waiting(i1), Follow(Listening(r0), Waiting(i1), true));
    }
  }

  lemma MirroredBothWays(c: Suite, a: Party, b: Party)
    requires Mirrored(c, a, b)
    ensures Mirrored(c, b, a)
  {
  }

  // The second message, from ends in step: written unless an agreement hits the identity, and read; both
  // ends then hold the same hash and chaining key, and each one's sending key is the other's receiving key.
  lemma HonestResponse(c: Suite, i: InitiatorState, r: ResponderState, ephSecret: bytes, senderIndex: u32,
                       receiverIndex: u32, sigKey: bytes, cookie: bytes)
    requires Laws(c) && |ephSecret| == DHLEN && |cookie| == MAC_BYTES
    requires Mirrored(c, Answering(r), Waiting(i)) && i.sym.n <= 1
    ensures var (m, r2) := WriteResponse(c, r, ephSecret, senderIndex, receiverIndex, sigKey, cookie);
            && (m.Ok? <==> Agree(c, ephSecret, i.eph.public).Ok? && Agree(c, ephSecret, i.own.public).Ok?)
            && (m.Ok? ==>
                  && |m.value| == MSG2_SIZE && m.value[4..8] == U32Bytes(senderIndex)
                  && var (read, i2) := ReadResponse(c, i, m.value, sigKey);
                  && read.Ok? && InStep(c, i2, r2))
  {
    var (m, r2) := WriteResponse(c, r, ephSecret, senderIndex, receiverIndex, sigKey, cookie);
    if m.Ok? {
      WriteResponseIsNoise(c, r, ephSecret, senderIndex, receiverIndex, sigKey, cookie);
      PatternsLegal();
      MessageReadBack(c, Answering(r), Waiting(i), RESPONSE, ephSecret, [], Answered(r2), m.value[12..60]);
      ReadResponseIsNoise(c, i, m.value, sigKey);
      hide Laws, WriteResponse, ReadResponse, ReadMessage, WriteMessage;
    }
  }

  ghost predicate InStep(c: Suite, i: InitiatorState, r: ResponderState) {
    var a, b := FinalizeInitiator(c, i), FinalizeResponder(c, r);
    && i.sym.h == r.sym.h && i.sym.ck == r.sym.ck
    && a.hash == b.hash && a.sendKey == b.recvKey && a.recvKey == b.sendKey
  }

  // A whole honest handshake: unless one of the four agreements hits the identity point, every step
  // succeeds and the ends finish in step.
  lemma HonestHandshake(c: Suite, own: bytes, peer: bytes, eph1: bytes, eph2: bytes, index1: u32, index2: u32,
                        timestamp: u64, sigKey: bytes, cookie1: bytes, cookie2: bytes)
    requires Laws(c) && |own| == |peer| == |eph1| == |eph2| == DHLEN && |cookie1| == |cookie2| == MAC_BYTES
    requires Agree(c, eph1, FromSecret(c, peer).public).Ok? && Agree(c, own, FromSecret(c, peer).public).Ok?
    requires Agree(c, eph2, FromSecret(c, eph1).public).Ok? && Agree(c, eph2, FromSecret(c, own).public).Ok?
    ensures var responder := FromSecret(c, peer);
            var (m1, i1) := WriteInitiation(c, NewInitiator(c, FromSecret(c, own), responder.public), eph1,
                                            index1, timestamp, sigKey, cookie1);
            && m1.Ok? && |m1.value| == MSG1_SIZE && m1.value[..4] == [1, 0, 0, 0]
            && var (info, r1) := ReadInitiation(c, NewResponder(c, responder), m1.value, sigKey);
            && info == Ok(InitiationInfo(index1, FromSecret(c, own).public, timestamp))
            && var (m2, r2) := WriteResponse(c, r1, eph2, index2, index1, sigKey, cookie2);
            && m2.Ok? && |m2.value| == MSG2_SIZE && m2.value[4..8] == U32Bytes(index2)
            && var (read, i2) := ReadResponse(c, i1, m2.value, sigKey);
            && read.Ok? && InStep(c, i2, r2)
  {
    hide Laws, Agree, ReadInitiation, WriteResponse, ReadResponse, InStep, Mirrored;
    var responder := FromSecret(c, peer);
    var i0 := NewInitiator(c, FromSecret(c, own), responder.public);
    HonestInitiation(c, own, peer, eph1, index1, timestamp, sigKey, cookie1);
    var (m1, i1) := WriteInitiation(c, i0, eph1, index1, timestamp, sigKey, cookie1);
    var r1 := ReadInitiation(c, NewResponder(c, responder), m1.value, sigKey).1;
    HonestResponse(c, i1, r1, eph2, index2, index1, sigKey, cookie2);
  }
}
