/** The Noise symmetric state and an interpreter for Noise message patterns (sections 5.2, 5.3 and 7 of the
    Noise Protocol Framework, revision 34), over a cryptographic suite about which only its laws are known. */
module Noise {
  import opened Base
  import opened Wire

  const DHLEN := 32
  const TAGLEN := 16
  const PROTOCOL_NAME: bytes := [
    0x4e, 0x6f, 0x69, 0x73, 0x65, 0x5f, 0x49, 0x4b, 0x5f, 0x32, 0x35, 0x35, 0x31, 0x39, 0x5f,
    0x43, 0x68, 0x61, 0x43, 0x68, 0x61, 0x50, 0x6f, 0x6c, 0x79, 0x5f,
    0x42, 0x4c, 0x41, 0x4b, 0x45, 0x32, 0x73]

  datatype Error = Mac1Failed | DecryptFailed | IdentityPoint | MissingKey | TooShort

  // ---------- the suite ----------

  datatype Suite = Suite(
    hash: bytes -> bytes,
    hmac: (bytes, bytes) -> bytes,
    scalarMult: (bytes, bytes) -> bytes,
    base: bytes,
    seal: (bytes, bytes, bytes, bytes) -> bytes,
    open: (bytes, bytes, bytes, bytes) -> Option<bytes>,
    mac1: (bytes, bytes) -> bytes)

  // Output lengths; Diffie-Hellman agreement; decryption undoes encryption.
  ghost predicate Laws(c: Suite) {
    && |c.base| == DHLEN
    && (forall d :: |c.hash(d)| == 32)
    && (forall k, d :: |c.hmac(k, d)| == 32)
    && (forall k, d :: |c.mac1(k, d)| == 16)
    && (forall s, p :: |c.scalarMult(s, p)| == DHLEN)
    && (forall a, b :: |a| == DHLEN && |b| == DHLEN ==>
          c.scalarMult(a, c.scalarMult(b, c.base)) == c.scalarMult(b, c.scalarMult(a, c.base)))
    && (forall k, n, ad, pt :: |c.seal(k, n, ad, pt)| == |pt| + TAGLEN)
    && (forall k, n, ad, pt :: c.open(k, n, ad, c.seal(k, n, ad, pt)) == Some(pt))
    && (forall k, n, ad, ct :: c.open(k, n, ad, ct).Some? ==> |ct| == |c.open(k, n, ad, ct).value| + TAGLEN)
  }

  function Zeros(n: nat): (z: bytes)
    ensures |z| == n
  {
    seq(n, _ => 0)
  }

  // The laws do not contradict each other.
  lemma LawsHaveModel()
    ensures exists c: Suite :: Laws(c)
  {
    var c := Suite(
      d => Zeros(32), (k, d) => Zeros(32), (s, p) => seq(DHLEN, _ => 1), Zeros(DHLEN),
      (k, n, ad, pt) => pt + Zeros(TAGLEN),
      (k, n, ad, ct: bytes) => if |ct| < TAGLEN then None else Some(ct[..|ct| - TAGLEN]),
      (k, d) => Zeros(16));
    forall k, n, ad, pt: bytes ensures c.open(k, n, ad, c.seal(k, n, ad, pt)) == Some(pt) {
      assert (pt + Zeros(TAGLEN))[..|pt|] == pt;
    }
    assert Laws(c);
  }

  // ---------- the symmetric state ----------

  datatype Symmetric = Symmetric(h: bytes, ck: bytes, k: bytes, n: u64, hasKey: bool)

  function Hkdf2(c: Suite, ck: bytes, ikm: bytes): (bytes, bytes) {
    var temp := c.hmac(ck, ikm);
    var o1 := c.hmac(temp, [1]);
    (o1, c.hmac(temp, o1 + [2]))
  }

  // Four zero bytes and the big-endian counter.
  function Nonce(n: u64): bytes {
    Zeros(4) + U64Bytes(n)
  }

  function Start(c: Suite): Symmetric {
    var h := c.hash(PROTOCOL_NAME);
    Symmetric(h, h, Zeros(32), 0, false)
  }

  function MixHash(c: Suite, st: Symmetric, data: bytes): (r: Symmetric)
    ensures r.n == st.n
  {
    st.(h := c.hash(st.h + data))
  }

  function MixKey(c: Suite, st: Symmetric, ikm: bytes): (r: Symmetric)
    ensures r.n == 0 && r.hasKey
  {
    var (o1, o2) := Hkdf2(c, st.ck, ikm);
    st.(ck := o1, k := o2, n := 0, hasKey := true)
  }

  // The counter stays below its last value: a key encrypts twice at most before it is replaced.
  predicate Ready(st: Symmetric) {
    st.n < U64_MAX
  }

  function EncryptAndHash(c: Suite, st: Symmetric, pt: bytes): (r: (Symmetric, bytes))
    requires Ready(st)
    ensures r.0.n <= st.n + 1
  {
    if st.hasKey then
      var ct := c.seal(st.k, Nonce(st.n), st.h, pt);
      (MixHash(c, st.(n := st.n + 1), ct), ct)
    else (MixHash(c, st, pt), pt)
  }

  function DecryptAndHash(c: Suite, st: Symmetric, ct: bytes): (r: Result<(Symmetric, bytes), Error>)
    requires Ready(st)
    ensures r.Ok? ==> r.value.0.n <= st.n + 1
    ensures r.Err? ==> r.error == DecryptFailed
  {
    if st.hasKey then
      match c.open(st.k, Nonce(st.n), st.h, ct)
      case None => Err(DecryptFailed)
      case Some(pt) => Ok((MixHash(c, st.(n := st.n + 1), ct), pt))
    else Ok((MixHash(c, st, ct), ct))
  }

  lemma DecryptUndoesEncrypt(c: Suite, st: Symmetric, pt: bytes)
    requires Laws(c) && Ready(st)
    ensures var (after, ct) := EncryptAndHash(c, st, pt);
            && DecryptAndHash(c, st, ct) == Ok((after, pt))
            && |ct| == |pt| + (if st.hasKey then TAGLEN else 0)
  {
    assert c.open(st.k, Nonce(st.n), st.h, c.seal(st.k, Nonce(st.n), st.h, pt)) == Some(pt);
  }

  // ---------- message patterns ----------

  datatype KeyPair = KeyPair(secret: bytes, public: bytes)

  function FromSecret(c: Suite, secret: bytes): KeyPair {
    KeyPair(secret, c.scalarMult(secret, c.base))
  }

  // Agreement refuses the all-zero point.
  function Agree(c: Suite, secret: bytes, public: bytes): (r: Result<bytes, Error>)
    ensures r.Err? ==> r.error == IdentityPoint
  {
    var shared := c.scalarMult(secret, public);
    if shared == Zeros(DHLEN) then Err(IdentityPoint) else Ok(shared)
  }

  datatype Token = E | S | EE | ES | SE | SS

  // One side of a handshake: its static and ephemeral keys, and the other side's as far as known.
  datatype Party = Party(
    sym: Symmetric, initiator: bool, s: KeyPair, e: Option<KeyPair>, rs: Option<bytes>, re: Option<bytes>)

  function AgreeOpt(c: Suite, kp: Option<KeyPair>, public: Option<bytes>): Result<bytes, Error> {
    if kp.Some? && public.Some? then Agree(c, kp.value.secret, public.value) else Err(MissingKey)
  }

  // The keys a Diffie-Hellman token combines: first letter the initiator's, second the responder's.
  function TokenSecret(c: Suite, p: Party, t: Token): Result<bytes, Error>
    requires !t.E? && !t.S?
  {
    match t
    case EE => AgreeOpt(c, p.e, p.re)
    case SS => AgreeOpt(c, Some(p.s), p.rs)
    case ES => if p.initiator then AgreeOpt(c, p.e, p.rs) else AgreeOpt(c, Some(p.s), p.re)
    case SE => if p.initiator then AgreeOpt(c, Some(p.s), p.re) else AgreeOpt(c, p.e, p.rs)
  }

  function WriteToken(c: Suite, p: Party, t: Token, ephemeral: bytes): (r: Result<(Party, bytes), Error>)
    requires Ready(p.sym)
    ensures r.Ok? ==> r.value.0.sym.n <= p.sym.n + 1
  {
    match t
    case E =>
      var kp := FromSecret(c, ephemeral);
      Ok((p.(e := Some(kp), sym := MixHash(c, p.sym, kp.public)), kp.public))
    case S =>
      var (sym, ct) := EncryptAndHash(c, p.sym, p.s.public);
      Ok((p.(sym := sym), ct))
    case _ =>
      var shared :- TokenSecret(c, p, t);
      Ok((p.(sym := MixKey(c, p.sym, shared)), []))
  }

  function ReadToken(c: Suite, p: Party, t: Token, msg: bytes): (r: Result<(Party, bytes), Error>)
    requires Ready(p.sym)
    ensures r.Ok? ==> r.value.0.sym.n <= p.sym.n + 1
  {
    match t
    case E =>
      if |msg| < DHLEN then Err(TooShort)
      else Ok((p.(re := Some(msg[..DHLEN]), sym := MixHash(c, p.sym, msg[..DHLEN])), msg[DHLEN..]))
    case S =>
      var n := DHLEN + (if p.sym.hasKey then TAGLEN else 0);
      if |msg| < n then Err(TooShort)
      else
        var r :- DecryptAndHash(c, p.sym, msg[..n]);
        Ok((p.(rs := Some(r.1), sym := r.0), msg[n..]))
    case _ =>
      var shared :- TokenSecret(c, p, t);
      Ok((p.(sym := MixKey(c, p.sym, shared)), msg))
  }

  // Room in the nonce for every token and the payload still to come.
  predicate Room(st: Symmetric, tokens: nat) {
    st.n + tokens < U64_MAX
  }

  function WriteTokens(c: Suite, p: Party, ts: seq<Token>, ephemeral: bytes): (r: Result<(Party, bytes), Error>)
    requires Room(p.sym, |ts|)
    ensures r.Ok? ==> Ready(r.value.0.sym)
    decreases |ts|
  {
    if ts == [] then Ok((p, []))
    else
      var a :- WriteToken(c, p, ts[0], ephemeral);
      var b :- WriteTokens(c, a.0, ts[1..], ephemeral);
      Ok((b.0, a.1 + b.1))
  }

  function ReadTokens(c: Suite, p: Party, ts: seq<Token>, msg: bytes): (r: Result<(Party, bytes), Error>)
    requires Room(p.sym, |ts|)
    ensures r.Ok? ==> Ready(r.value.0.sym)
    decreases |ts|
  {
    if ts == [] then Ok((p, msg))
    else
      var a :- ReadToken(c, p, ts[0], msg);
      ReadTokens(c, a.0, ts[1..], a.1)
  }

  // A whole message: the tokens, then the payload.
  function WriteMessage(c: Suite, p: Party, ts: seq<Token>, ephemeral: bytes, payload: bytes)
    : Result<(Party, bytes), Error>
    requires Room(p.sym, |ts|)
  {
    var a :- WriteTokens(c, p, ts, ephemeral);
    var (sym, ct) := EncryptAndHash(c, a.0.sym, payload);
    Ok((a.0.(sym := sym), a.1 + ct))
  }

  function ReadMessage(c: Suite, p: Party, ts: seq<Token>, msg: bytes): Result<(Party, bytes), Error>
    requires Room(p.sym, |ts|)
  {
    var a :- ReadTokens(c, p, ts, msg);
    var r :- DecryptAndHash(c, a.0.sym, a.1);
    Ok((a.0.(sym := r.0), r.1))
  }

  // ---------- what is written is read back ----------

  ghost predicate Sound(c: Suite, kp: KeyPair) {
    |kp.secret| == DHLEN && kp.public == c.scalarMult(kp.secret, c.base)
  }

  function PublicOf(kp: Option<KeyPair>): Option<bytes> {
    if kp.Some? then Some(kp.value.public) else None
  }

  // The two sides of one handshake: the same symmetric state, opposite roles, and what either knows of
  // the other is true.
  ghost predicate Mirrored(c: Suite, w: Party, r: Party) {
    && w.sym == r.sym && w.initiator != r.initiator
    && Sound(c, w.s) && Sound(c, r.s)
    && (w.e.Some? ==> Sound(c, w.e.value)) && (r.e.Some? ==> Sound(c, r.e.value))
    && w.re == PublicOf(r.e) && r.re == PublicOf(w.e)
    && (w.rs.Some? ==> w.rs.value == r.s.public)
    && (r.rs.Some? ==> r.rs.value == w.s.public)
  }

  // The reader uses the writer's static key in this token.
  predicate UsesWriterStatic(t: Token, writerIsInitiator: bool) {
    t == SS || (if writerIsInitiator then t == SE else t == ES)
  }

  // The validity rule of section 7.3: the reader holds every key it needs by then.
  predicate Legal(ts: seq<Token>, writerIsInitiator: bool, known: bool)
    decreases ts
  {
    if ts == [] then true
    else
      && (UsesWriterStatic(ts[0], writerIsInitiator) ==> known)
      && Legal(ts[1..], writerIsInitiator, known || ts[0] == S)
  }

  // The message carries the writer's static key.
  predicate Reveals(ts: seq<Token>)
    decreases ts
  {
    ts != [] && (ts[0] == S || Reveals(ts[1..]))
  }

  // The two sides compute the same shared secret.
  lemma TokenAgreement(c: Suite, w: Party, r: Party, t: Token)
    requires Laws(c) && Mirrored(c, w, r) && !t.E? && !t.S?
    requires UsesWriterStatic(t, w.initiator) ==> r.rs.Some?
    requires TokenSecret(c, w, t).Ok?
    ensures TokenSecret(c, r, t) == TokenSecret(c, w, t)
  {
    Commutes(c, w.s, r.s);
    if w.e.Some? { Commutes(c, w.e.value, r.s); }
    if r.e.Some? { Commutes(c, w.s, r.e.value); }
    if w.e.Some? && r.e.Some? { Commutes(c, w.e.value, r.e.value); }
    hide Laws;
  }

  lemma Commutes(c: Suite, a: KeyPair, b: KeyPair)
    requires Laws(c) && Sound(c, a) && Sound(c, b)
    ensures Agree(c, a.secret, b.public) == Agree(c, b.secret, a.public)
  {
    assert c.scalarMult(a.secret, c.scalarMult(b.secret, c.base))
        == c.scalarMult(b.secret, c.scalarMult(a.secret, c.base));
  }

  // The reader after following what the writer did: it differs from before in what it has learned only.
  function Follow(r: Party, w: Party, revealed: bool): Party {
    r.(sym := w.sym, re := PublicOf(w.e), rs := if revealed then Some(w.s.public) else r.rs)
  }

  // One token written is one token read.
  lemma TokenReadBack(c: Suite, w: Party, r: Party, t: Token, ephemeral: bytes, after: Party, m: bytes, rest: bytes)
    requires Laws(c) && Mirrored(c, w, r) && Ready(w.sym) && |ephemeral| == DHLEN
    requires UsesWriterStatic(t, w.initiator) ==> r.rs.Some?
    requires WriteToken(c, w, t, ephemeral) == Ok((after, m))
    ensures ReadToken(c, r, t, m + rest) == Ok((Follow(r, after, t == S), rest))
    ensures Mirrored(c, after, Follow(r, after, t == S)) && after.initiator == w.initiator && after.s == w.s
  {
    match t
    case E =>
      assert (m + rest)[..DHLEN] == m && (m + rest)[DHLEN..] == rest;
    case S =>
      DecryptUndoesEncrypt(c, w.sym, w.s.public);
      assert (m + rest)[..|m|] == m && (m + rest)[|m|..] == rest;
    case _ =>
      TokenAgreement(c, w, r, t);
      assert m + rest == rest;
  }

  lemma {:induction false} TokensReadBack(c: Suite, w: Party, r: Party, ts: seq<Token>, ephemeral: bytes, after: Party,
                                          m: bytes, rest: bytes)
    requires Laws(c) && Mirrored(c, w, r) && Room(w.sym, |ts|) && |ephemeral| == DHLEN
    requires Legal(ts, w.initiator, r.rs.Some?)
    requires WriteTokens(c, w, ts, ephemeral) == Ok((after, m))
    ensures ReadTokens(c, r, ts, m + rest) == Ok((Follow(r, after, Reveals(ts)), rest))
    ensures Mirrored(c, after, Follow(r, after, Reveals(ts))) && after.s == w.s
    decreases |ts|
  {
    if ts == [] {
      assert m + rest == rest;
    } else {
      hide Laws, Mirrored, WriteToken, ReadToken, UsesWriterStatic;
      var a := WriteToken(c, w, ts[0], ephemeral).value;
      var b := WriteTokens(c, a.0, ts[1..], ephemeral).value;
      var r1 := Follow(r, a.0, ts[0] == S);
      TokenReadBack(c, w, r, ts[0], ephemeral, a.0, a.1, b.1 + rest);
      TokensReadBack(c, a.0, r1, ts[1..], ephemeral, after, b.1, rest);
      assert m + rest == a.1 + (b.1 + rest);
    }
  }

  // For any legal pattern: a message written without error is read without error, the payload comes
  // out, the reader has learned the static key if it was sent, and the sides mirror each other again.
  lemma MessageReadBack(c: Suite, w: Party, r: Party, ts: seq<Token>, ephemeral: bytes, payload: bytes,
                        after: Party, m: bytes)
    requires Laws(c) && Mirrored(c, w, r) && Room(w.sym, |ts|) && |ephemeral| == DHLEN
    requires Legal(ts, w.initiator, r.rs.Some?)
    requires WriteMessage(c, w, ts, ephemeral, payload) == Ok((after, m))
    ensures ReadMessage(c, r, ts, m) == Ok((Follow(r, after, Reveals(ts)), payload))
    ensures Mirrored(c, after, Follow(r, after, Reveals(ts)))
  {
    var a := WriteTokens(c, w, ts, ephemeral).value;
    var ct := EncryptAndHash(c, a.0.sym, payload).1;
    TokensReadBack(c, w, r, ts, ephemeral, a.0, a.1, ct);
    DecryptUndoesEncrypt(c, a.0.sym, payload);
    hide Laws, WriteTokens, ReadTokens, Legal, Reveals;
  }
}
