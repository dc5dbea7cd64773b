/** Certificates: the wire format with its strictly ascending CA keys, chain validation against the
    trust set, and the quorum that parsing and validation guarantee together. */
module Certs {
  import opened Base
  import opened Wire
  import opened Codec
  import opened Collections

  // ---------- lexicographic order on keys ----------

  predicate LexLess(a: bytes, b: bytes) {
    b != [] && (a == [] || a[0] < b[0] || (a[0] == b[0] && LexLess(a[1..], b[1..])))
  }

  // The order is by the first byte that differs; a proper prefix comes first.
  lemma {:induction false} LexLessIff(a: bytes, b: bytes)
    ensures LexLess(a, b) <==> exists k: nat :: DiffersAt(a, b, k)
  {
    if a != [] && b != [] && a[0] == b[0] {
      LexLessIff(a[1..], b[1..]);
      if k: nat :| DiffersAt(a[1..], b[1..], k) {
        assert a[..k + 1] == [a[0]] + a[1..][..k] && b[..k + 1] == [b[0]] + b[1..][..k];
        assert DiffersAt(a, b, k + 1);
      }
      if k: nat :| DiffersAt(a, b, k) {
        if k > 0 {
          assert a[1..][..k - 1] == a[..k][1..] && b[1..][..k - 1] == b[..k][1..];
          assert DiffersAt(a[1..], b[1..], k - 1);
        }
      }
    } else if b != [] && (a == [] || a[0] < b[0]) {
      assert DiffersAt(a, b, 0);
    } else if a != [] && b != [] {
      forall k: nat ensures !DiffersAt(a, b, k) {
        if k > 0 && k <= |a| && k < |b| {
          assert a[..k][0] != b[..k][0];
        }
      }
    }
  }

  predicate DiffersAt(a: bytes, b: bytes, k: nat) {
    k <= |a| && k < |b| && a[..k] == b[..k] && (k == |a| || a[k] < b[k])
  }

  lemma {:induction false} LexTransitive(a: bytes, b: bytes, c: bytes)
    requires LexLess(a, b) && LexLess(b, c)
    ensures LexLess(a, c)
  {
    if a != [] && a[0] == b[0] && b[0] == c[0] {
      LexTransitive(a[1..], b[1..], c[1..]);
    }
  }

  lemma {:induction false} LexIrreflexive(a: bytes)
    ensures !LexLess(a, a)
  {
    if a != [] {
      LexIrreflexive(a[1..]);
    }
  }

  // ---------- packed (key, signature) pairs ----------

  function CaKey(pairs: bytes, i: nat): bytes
    requires LEN_CA_PAIR * i + LEN_CA_PAIR <= |pairs|
  {
    pairs[LEN_CA_PAIR * i..LEN_CA_PAIR * i + LEN_CA_KEY]
  }

  function CaSig(pairs: bytes, i: nat): bytes
    requires LEN_CA_PAIR * i + LEN_CA_PAIR <= |pairs|
  {
    pairs[LEN_CA_PAIR * i + LEN_CA_KEY..LEN_CA_PAIR * i + LEN_CA_PAIR]
  }

  // n pairs whose keys ascend strictly, the first above prev.
  predicate Ascending(prev: Option<bytes>, pairs: bytes, n: nat)
    decreases n
  {
    if n == 0 then pairs == []
    else
      && |pairs| >= LEN_CA_PAIR
      && (prev.Some? ==> LexLess(prev.value, pairs[..LEN_CA_KEY]))
      && Ascending(Some(pairs[..LEN_CA_KEY]), pairs[LEN_CA_PAIR..], n - 1)
  }

  function ReadPairs(rest: bytes, n: nat, prev: Option<bytes>): (r: Read<bytes>)
    ensures r.Ok? ==> rest == r.value.0 + r.value.1 && Ascending(prev, r.value.0, n)
  {
    if n == 0 then Ok(([], rest)) else
    var (key, r) :- Take(rest, LEN_CA_KEY);
    if prev.Some? && !LexLess(prev.value, key) then Err(Malformed) else
    var (sig, r) :- Take(r, LEN_SIG);
    var (more, r) :- ReadPairs(r, n - 1, Some(key));
    var pairs := key + sig + more;
    assert pairs[..LEN_CA_KEY] == key && pairs[LEN_CA_PAIR..] == more;
    Ok((pairs, r))
  }

  lemma {:induction false} PairsFront(pairs: bytes, t: bytes, n: nat, prev: Option<bytes>)
    requires Ascending(prev, pairs, n)
    ensures ReadPairs(pairs + t, n, prev) == Ok((pairs, t))
  {
    if n == 0 {
      assert pairs + t == t;
    } else {
      var key, sig, more := pairs[..LEN_CA_KEY], pairs[LEN_CA_KEY..LEN_CA_PAIR], pairs[LEN_CA_PAIR..];
      assert pairs == key + sig + more;
      assert pairs + t == key + (sig + (more + t));
      TakeFront(key, sig + (more + t));
      TakeFront(sig, more + t);
      PairsFront(more, t, n - 1, Some(key));
    }
  }

  lemma {:induction false} AscendingLength(prev: Option<bytes>, pairs: bytes, n: nat)
    requires Ascending(prev, pairs, n)
    ensures |pairs| == LEN_CA_PAIR * n
    decreases n
  {
    if n > 0 {
      AscendingLength(Some(pairs[..LEN_CA_KEY]), pairs[LEN_CA_PAIR..], n - 1);
    }
  }

  // Key j of all pairs is key j - 1 of all but the first.
  lemma KeyOfRest(pairs: bytes, j: nat)
    requires 0 < j && LEN_CA_PAIR * j + LEN_CA_PAIR <= |pairs|
    ensures CaKey(pairs[LEN_CA_PAIR..], j - 1) == CaKey(pairs, j)
  {
    var at := LEN_CA_PAIR * (j - 1);
    SliceOfSlice(pairs, LEN_CA_PAIR, |pairs|, at, at + LEN_CA_KEY);
  }

  // Every key is above everything before it, not just above its neighbour.
  lemma {:induction false} KeysAbove(prev: bytes, pairs: bytes, n: nat, j: nat)
    requires Ascending(Some(prev), pairs, n) && j < n
    ensures |pairs| == LEN_CA_PAIR * n && LexLess(prev, CaKey(pairs, j))
    decreases n
  {
    AscendingLength(Some(prev), pairs, n);
    if j > 0 {
      var key, more := pairs[..LEN_CA_KEY], pairs[LEN_CA_PAIR..];
      KeysAbove(key, more, n - 1, j - 1);
      KeyOfRest(pairs, j);
      LexTransitive(prev, key, CaKey(pairs, j));
    }
  }

  lemma {:induction false} KeysDistinct(prev: Option<bytes>, pairs: bytes, n: nat, i: nat, j: nat)
    requires Ascending(prev, pairs, n) && i < j < n
    ensures |pairs| == LEN_CA_PAIR * n && CaKey(pairs, i) != CaKey(pairs, j)
    decreases n
  {
    AscendingLength(prev, pairs, n);
    var key, more := pairs[..LEN_CA_KEY], pairs[LEN_CA_PAIR..];
    AscendingLength(Some(key), more, n - 1);
    KeyOfRest(pairs, j);
    if i == 0 {
      KeysAbove(key, more, n - 1, j - 1);
      LexIrreflexive(key);
    } else {
      KeyOfRest(pairs, i);
      KeysDistinct(Some(key), more, n - 1, i - 1, j - 1);
    }
  }

  // Pairs ascend exactly when each key is below the next.
  lemma {:induction false} AscendingIff(prev: Option<bytes>, pairs: bytes, n: nat)
    ensures Ascending(prev, pairs, n) <==>
              && |pairs| == 96 * n
              && (prev.Some? && n > 0 ==> LexLess(prev.value, pairs[..32]))
              && forall k: nat :: k + 1 < n ==> KeysAscendAt(pairs, k)
    decreases n
  {
    if n > 0 && |pairs| >= 96 {
      var more := pairs[96..];
      AscendingIff(Some(pairs[..32]), more, n - 1);
      if |pairs| == 96 * n {
        forall k: nat | 0 < k && k + 1 < n ensures KeysAscendAt(pairs, k) <==> KeysAscendAt(more, k - 1) {
          KeyOfRest(pairs, k);
          KeyOfRest(pairs, k + 1);
        }
        if n > 1 {
          SliceOfSlice(pairs, 96, |pairs|, 0, 32);
          assert more[..32] == pairs[96..128];
          assert KeysAscendAt(pairs, 0) <==> LexLess(pairs[..32], more[..32]);
        }
        hide LexLess, KeysAscendAt;
        assert forall k: nat :: k + 1 < n - 1 ==> (KeysAscendAt(more, k) <==> KeysAscendAt(pairs, k + 1));
      }
    }
  }

  // Key k of the packed pairs is below the next one.
  predicate KeysAscendAt(pairs: bytes, k: nat) {
    |pairs| >= 96 * k + 192 && LexLess(pairs[96 * k..96 * k + 32], pairs[96 * k + 96..96 * k + 128])
  }

  // ---------- the certificate ----------

  function EncodeCert(c: Cert): bytes {
    [c.version] + ([c.roleBits] + (c.sigPubkey + (c.kexPubkey + (U64Bytes(c.notBefore)
    + (U64Bytes(c.notAfter) + (Prefixed16(c.name) + ([c.scopeCount] + (c.scopeIds
    + ([c.caSigCount] + c.caSigs)))))))))
  }

  predicate FitsCert(c: Cert) {
    && |c.sigPubkey| == |c.kexPubkey| == LEN_PUBKEY
    && |c.name| <= MAX_NAME
    && c.scopeCount <= MAX_SCOPE && |c.scopeIds| == c.scopeCount * LEN_SCOPE_ID
    && 1 <= c.caSigCount <= MAX_CA_SIGS && Ascending(None, c.caSigs, c.caSigCount)
    && EncodeCert(c) == c.tbs + ([c.caSigCount] + c.caSigs)
  }

  function ParseCert(buf: bytes): Result<Cert, ParseError> {
    var (version, r) :- TakeU8(buf);
    var (roleBits, r) :- TakeU8(r);
    var (sigPubkey, r) :- Take(r, LEN_PUBKEY);
    var (kexPubkey, r) :- Take(r, LEN_PUBKEY);
    var (notBefore, r) :- TakeU64(r);
    var (notAfter, r) :- TakeU64(r);
    var (name, r) :- Field16(r, MAX_NAME);
    var (scopeCount, r) :- TakeU8(r);
    if scopeCount > MAX_SCOPE then Err(Oversize) else
    var (scopeIds, r) :- Take(r, scopeCount * LEN_SCOPE_ID);
    var tbs := Before(buf, r);
    var (caSigCount, r) :- TakeU8(r);
    if caSigCount == 0 then Err(Malformed)
    else if caSigCount > MAX_CA_SIGS then Err(Oversize) else
    var (caSigs, r) :- ReadPairs(r, caSigCount, None);
    if r != [] then Err(TrailingBytes)
    else Ok(Cert(version, roleBits, sigPubkey, kexPubkey, notBefore, notAfter, name, scopeCount,
                  scopeIds, caSigCount, caSigs, tbs))
  }

  lemma CertParsed(w: bytes)
    requires ParseCert(w).Ok?
    ensures var c := ParseCert(w).value;
            FitsCert(c) && EncodeCert(c) == w
  {
    hide Take, TakeU8, TakeU16, TakeU64, Field16, Prefixed16, U64Bytes, ReadPairs, Ascending;
    var c := ParseCert(w).value;
    assert EncodeCert(c) == w;
    assert w == c.tbs + ([c.caSigCount] + c.caSigs);
  }

  lemma CertEncoded(c: Cert)
    requires FitsCert(c)
    ensures ParseCert(EncodeCert(c)) == Ok(c)
  {
    hide Ascending, ReadPairs, Take, TakeU8, TakeU64, Field16, Prefixed16, U64Bytes;
    var t10 := [c.caSigCount] + c.caSigs;
    var t9 := c.scopeIds + t10;
    var t8 := [c.scopeCount] + t9;
    var t7 := Prefixed16(c.name) + t8;
    var t6 := U64Bytes(c.notAfter) + t7;
    var t5 := U64Bytes(c.notBefore) + t6;
    var t4 := c.kexPubkey + t5;
    var t3 := c.sigPubkey + t4;
    U8Front(c.version, [c.roleBits] + t3);
    U8Front(c.roleBits, t3);
    TakeFront(c.sigPubkey, t4);
    TakeFront(c.kexPubkey, t5);
    U64Front(c.notBefore, t6);
    U64Front(c.notAfter, t7);
    Field16Front(c.name, t8, MAX_NAME);
    U8Front(c.scopeCount, t9);
    TakeFront(c.scopeIds, t10);
    U8Front(c.caSigCount, c.caSigs);
    PairsFront(c.caSigs, [], c.caSigCount, None);
    assert c.caSigs + [] == c.caSigs;
    assert Before(EncodeCert(c), t10) == c.tbs;
  }

  lemma CertRoundTrip(w: bytes, c: Cert)
    ensures ParseCert(w) == Ok(c) <==> FitsCert(c) && EncodeCert(c) == w
  {
    if ParseCert(w) == Ok(c) {
      CertParsed(w);
    }
    if FitsCert(c) && EncodeCert(c) == w {
      CertEncoded(c);
    }
  }

  // ---------- chain validation ----------

  const DOMAIN_CERT: byte := 0x01
  const DOMAIN_BINDING: byte := 0x05
  const MAX_PRIVILEGED_LIFETIME_MS := 2_592_000_000
  const APPROVER_QUORUM := 2

  datatype BindingError =
    | MalformedKey | BadCaSignature | UntrustedCa | CertExpired | CertTooLongLived
    | RoleAgentApprover | RoleAgentExecutor | RoleApproverExecutor | ApproverNoQuorum
    | BadBindingSig | KexPubkeyMismatch

  // The signature check (tag, message, signature, key), supplied from outside.
  type Verifier = (byte, bytes, bytes, bytes) -> bool

  predicate IsAgent(roleBits: byte) {
    roleBits / 2 % 2 == 1
  }

  predicate IsExecutor(roleBits: byte) {
    roleBits / 4 % 2 == 1
  }

  predicate IsApprover(roleBits: byte) {
    roleBits / 8 % 2 == 1
  }

  function CheckRoleConstraints(roleBits: byte): Result<(), BindingError> {
    if IsAgent(roleBits) && IsApprover(roleBits) then Err(RoleAgentApprover)
    else if IsAgent(roleBits) && IsExecutor(roleBits) then Err(RoleAgentExecutor)
    else if IsApprover(roleBits) && IsExecutor(roleBits) then Err(RoleApproverExecutor)
    else Ok(())
  }

  // Check the pairs from the i-th on.
  function CheckPairs(c: Cert, trusted: seq<bytes>, verify: Verifier, i: nat): Result<(), BindingError>
    decreases c.caSigCount - i
  {
    if i >= c.caSigCount then Ok(())
    else if LEN_CA_PAIR * i + LEN_CA_PAIR > |c.caSigs| then Err(BadCaSignature)
    else if !verify(DOMAIN_CERT, c.tbs, CaSig(c.caSigs, i), CaKey(c.caSigs, i)) then Err(BadCaSignature)
    else if CaKey(c.caSigs, i) !in trusted then Err(UntrustedCa)
    else CheckPairs(c, trusted, verify, i + 1)
  }

  function ValidateCertChain(c: Cert, trusted: seq<bytes>, verify: Verifier): Result<(), BindingError> {
    var _ :- CheckRoleConstraints(c.roleBits);
    if IsApprover(c.roleBits) && c.caSigCount < APPROVER_QUORUM then Err(ApproverNoQuorum)
    else if (IsApprover(c.roleBits) || IsExecutor(c.roleBits))
            && SatSub(c.notAfter, c.notBefore) > MAX_PRIVILEGED_LIFETIME_MS then Err(CertTooLongLived)
    else CheckPairs(c, trusted, verify, 0)
  }

  function ValidateCert(c: Cert, trusted: seq<bytes>, verify: Verifier, now: u64): Result<(), BindingError> {
    var _ :- ValidateCertChain(c, trusted, verify);
    if now < c.notBefore || now >= c.notAfter then Err(CertExpired) else Ok(())
  }

  function BindSession(c: Cert, bindingSig: bytes, handshakeHash: bytes, remoteKex: bytes,
                       trusted: seq<bytes>, verify: Verifier, now: u64): Result<(), BindingError>
  {
    var _ :- ValidateCert(c, trusted, verify, now);
    if c.kexPubkey != remoteKex then Err(KexPubkeyMismatch)
    else if !verify(DOMAIN_BINDING, handshakeHash, bindingSig, c.sigPubkey) then Err(BadBindingSig)
    else Ok(())
  }

  // Pair i, 32 bytes of key and 64 of signature, is a trusted CA's signature over the certificate.
  predicate Endorsed(c: Cert, trusted: seq<bytes>, verify: Verifier, i: nat) {
    && |c.caSigs| >= 96 * i + 96
    && c.caSigs[96 * i..96 * i + 32] in trusted
    && verify(0x01, c.tbs, c.caSigs[96 * i + 32..96 * i + 96], c.caSigs[96 * i..96 * i + 32])
  }

  lemma {:induction false} PairsEndorsed(c: Cert, trusted: seq<bytes>, verify: Verifier, i: nat)
    ensures CheckPairs(c, trusted, verify, i).Ok?
            <==> forall k: nat :: i <= k < c.caSigCount ==> Endorsed(c, trusted, verify, k)
    decreases c.caSigCount - i
  {
    if i < c.caSigCount {
      PairsEndorsed(c, trusted, verify, i + 1);
      assert CheckPairs(c, trusted, verify, i).Ok?
             <==> Endorsed(c, trusted, verify, i) && CheckPairs(c, trusted, verify, i + 1).Ok?;
    }
  }

  // The chain is sound exactly when the roles are compatible, an approver has its quorum, privilege
  // is short-lived, and every listed CA is trusted and signed this very certificate.
  lemma ChainSoundIff(c: Cert, trusted: seq<bytes>, verify: Verifier)
    ensures var agent, executor, approver := c.roleBits / 2 % 2, c.roleBits / 4 % 2, c.roleBits / 8 % 2;
            ValidateCertChain(c, trusted, verify).Ok? <==>
            && agent + executor + approver <= 1
            && (approver == 1 ==> c.caSigCount >= 2)
            && (executor == 1 || approver == 1 ==> c.notAfter <= c.notBefore + MAX_PRIVILEGED_LIFETIME_MS)
            && forall k: nat :: k < c.caSigCount ==> Endorsed(c, trusted, verify, k)
  {
    PairsEndorsed(c, trusted, verify, 0);
    hide CheckPairs, Endorsed;
  }

  // At least two trusted CA keys, pairwise distinct, each of which signed the certificate.
  ghost predicate DistinctQuorum(c: Cert, trusted: seq<bytes>, verify: Verifier) {
    && c.caSigCount >= APPROVER_QUORUM
    && |c.caSigs| == LEN_CA_PAIR * c.caSigCount
    && (forall k: nat :: k < c.caSigCount ==> Endorsed(c, trusted, verify, k))
    && (forall i: nat, j: nat :: i < j < c.caSigCount ==> CaKey(c.caSigs, i) != CaKey(c.caSigs, j))
  }

  // An approver certificate that parses and validates has such a quorum.
  lemma ApproverQuorumDistinct(w: bytes, c: Cert, trusted: seq<bytes>, verify: Verifier)
    requires ParseCert(w) == Ok(c)
    requires IsApprover(c.roleBits) && ValidateCertChain(c, trusted, verify).Ok?
    ensures DistinctQuorum(c, trusted, verify)
  {
    hide ParseCert;
    CertParsed(w);
    ChainSoundIff(c, trusted, verify);
    AscendingLength(None, c.caSigs, c.caSigCount);
    forall i: nat, j: nat | i < j < c.caSigCount ensures CaKey(c.caSigs, i) != CaKey(c.caSigs, j) {
      KeysDistinct(None, c.caSigs, c.caSigCount, i, j);
    }
  }

  // A session binds only to the peer that ran the handshake, under a certificate valid now.
  lemma BoundSessionIff(c: Cert, bindingSig: bytes, h: bytes, remoteKex: bytes,
                        trusted: seq<bytes>, verify: Verifier, now: u64)
    ensures BindSession(c, bindingSig, h, remoteKex, trusted, verify, now).Ok? <==>
            && ValidateCertChain(c, trusted, verify).Ok?
            && c.notBefore <= now < c.notAfter
            && c.kexPubkey == remoteKex
            && verify(DOMAIN_BINDING, h, bindingSig, c.sigPubkey)
  {
  }
}
