/** The wire formats as lists of fields: what the parsers accept, independent of the encoders. */
module WireLayout {
  import opened Base
  import opened Wire
  import opened Codec
  import Certs

  datatype Fields = End | Then(field: bytes, rest: Fields)

  // Fields one after the other.
  function Joined(fields: Fields): bytes {
    match fields
    case End => []
    case Then(field, rest) => field + Joined(rest)
  }

  // Where field k starts.
  function Offset(fields: Fields, k: nat): nat {
    if k == 0 || fields.End? then 0 else |fields.field| + Offset(fields.rest, k - 1)
  }

  function Count(fields: Fields): nat {
    if fields.End? then 0 else 1 + Count(fields.rest)
  }

  function FieldAt(fields: Fields, k: nat): bytes
    requires k < Count(fields)
  {
    if k == 0 then fields.field else FieldAt(fields.rest, k - 1)
  }

  // Every field stands where the lengths of those before it put it.
  lemma {:induction false} FieldStands(fields: Fields, k: nat)
    requires k < Count(fields)
    ensures Offset(fields, k) + |FieldAt(fields, k)| <= |Joined(fields)|
    ensures Joined(fields)[Offset(fields, k)..Offset(fields, k) + |FieldAt(fields, k)|] == FieldAt(fields, k)
  {
    if k > 0 {
      FieldStands(fields.rest, k - 1);
      var o, f := Offset(fields.rest, k - 1), FieldAt(fields.rest, k - 1);
      assert Joined(fields)[|fields.field| + o..|fields.field| + o + |f|] == Joined(fields.rest)[o..o + |f|];
    }
  }

  // The length of a field that follows, in two bytes or in four.
  function Size16(field: bytes): bytes
    requires |field| < 0x1_0000
  {
    [|field| / 256, |field| % 256]
  }

  function Size32(field: bytes): bytes
    requires |field| < 0x1_0000_0000
  {
    U32Bytes(|field|)
  }

  lemma Reassociate(a: bytes, b: bytes, c: bytes)
    ensures a + (b + c) == (a + b) + c
  {
  }

  // A field behind its length is what the encoders put down at once.
  lemma Sized16(field: bytes, rest: Fields)
    requires |field| < 0x1_0000
    ensures Joined(Then(Size16(field), Then(field, rest))) == Prefixed16(field) + Joined(rest)
  {
    TwoBytes(|field|);
    assert Joined(Then(field, rest)) == field + Joined(rest);
    Reassociate(Size16(field), field, Joined(rest));
  }

  lemma Sized32(field: bytes, rest: Fields)
    requires |field| < 0x1_0000_0000
    ensures Joined(Then(Size32(field), Then(field, rest))) == Prefixed32(field) + Joined(rest)
  {
    assert Joined(Then(field, rest)) == field + Joined(rest);
    Reassociate(Size32(field), field, Joined(rest));
  }

  // A signature covers all that stands before it.
  predicate Covers(w: bytes, tbs: bytes) {
    |w| >= 64 && tbs == w[..|w| - 64]
  }

  lemma SignedPart(w: bytes, tbs: bytes, sig: bytes)
    requires |sig| == 64 && |w| >= 64 && w[|w| - 64..] == sig
    ensures w == tbs + sig <==> Covers(w, tbs)
  {
    assert w == w[..|w| - 64] + sig;
  }

  predicate EnvelopeBounds(e: Envelope) {
    && |e.channelId| == |e.sender| == 32 && |e.sig| == 64
    && e.parentCount <= 4 && |e.parents| == 32 * e.parentCount && |e.body| <= 1_048_064
  }

  function EnvelopeFields(e: Envelope): Fields
    requires EnvelopeBounds(e)
  {
    Then([e.version], Then(e.channelId, Then(e.sender, Then(U64Bytes(e.seqNo), Then([e.parentCount],
    Then(e.parents, Then(U64Bytes(e.ts), Then([e.bodyType], Then(Size32(e.body), Then(e.body, Then(e.sig, End)))))))))))
  }

  // Accepted are exactly these fields in this order, within these bounds, the signed part in front of the signature.
  lemma EnvelopeLayout(w: bytes, e: Envelope)
    ensures ParseEnvelope(w) == Ok(e) <==> EnvelopeBounds(e) && w == Joined(EnvelopeFields(e)) && Covers(w, e.tbs)
  {
    EnvelopeRoundTrip(w, e);
    if EnvelopeBounds(e) {
      EnvelopeJoined(e);
      hide ParseEnvelope, EncodeEnvelope, Joined, EnvelopeFields;
      EndsSignedEnvelope(e);
      if w == EncodeEnvelope(e) {
        SignedPart(w, e.tbs, e.sig);
      }
    }
  }

  lemma EndsSignedEnvelope(e: Envelope)
    requires |e.sig| == 64
    ensures |EncodeEnvelope(e)| >= 64 && EncodeEnvelope(e)[|EncodeEnvelope(e)| - 64..] == e.sig
  {
  }

  lemma EnvelopeJoined(e: Envelope)
    requires EnvelopeBounds(e)
    ensures Joined(EnvelopeFields(e)) == EncodeEnvelope(e)
  {
    hide U16Bytes, U32Bytes, U64Bytes, Prefixed16, Prefixed32, Size16, Size32;
    var t10 := Then(e.sig, End);
    assert Joined(t10) == e.sig;
    var t9 := Then(e.body, t10);
    var t8 := Then(Size32(e.body), t9);
    Sized32(e.body, t10);
    var t7 := Then([e.bodyType], t8);
    assert Joined(t7) == [e.bodyType] + Joined(t8);
    var t6 := Then(U64Bytes(e.ts), t7);
    assert Joined(t6) == U64Bytes(e.ts) + Joined(t7);
    var t5 := Then(e.parents, t6);
    assert Joined(t5) == e.parents + Joined(t6);
    var t4 := Then([e.parentCount], t5);
    assert Joined(t4) == [e.parentCount] + Joined(t5);
    var t3 := Then(U64Bytes(e.seqNo), t4);
    assert Joined(t3) == U64Bytes(e.seqNo) + Joined(t4);
    var t2 := Then(e.sender, t3);
    assert Joined(t2) == e.sender + Joined(t3);
    var t1 := Then(e.channelId, t2);
    assert Joined(t1) == e.channelId + Joined(t2);
    var t0 := Then([e.version], t1);
    assert Joined(t0) == [e.version] + Joined(t1);
    assert t0 == EnvelopeFields(e);
  }

  predicate IntentBounds(i: Intent) {
    && |i.intentId| == 16
    && |i.resourceId| <= 256 && |i.action| <= 262_144 && |i.rationale| <= 4096
  }

  function IntentFields(i: Intent): Fields
    requires IntentBounds(i)
  {
    Then(i.intentId, Then(Size16(i.resourceId), Then(i.resourceId, Then(Size32(i.action), Then(i.action,
    Then(Size16(i.rationale), Then(i.rationale, End)))))))
  }

  // Accepted are exactly these fields in this order, within these bounds.
  lemma IntentLayout(w: bytes, i: Intent)
    ensures ParseIntent(w) == Ok(i) <==> IntentBounds(i) && w == Joined(IntentFields(i))
  {
    IntentRoundTrip(w, i);
    if IntentBounds(i) {
      IntentJoined(i);
      hide ParseIntent, EncodeIntent, Joined, IntentFields;
    }
  }

  lemma IntentJoined(i: Intent)
    requires IntentBounds(i)
    ensures Joined(IntentFields(i)) == EncodeIntent(i)
  {
    hide U16Bytes, U32Bytes, U64Bytes, Prefixed16, Prefixed32, Size16, Size32;
    var t6 := Then(i.rationale, End);
    assert Joined(t6) == i.rationale;
    var t5 := Then(Size16(i.rationale), t6);
    Sized16(i.rationale, End);
    assert Prefixed16(i.rationale) + [] == Prefixed16(i.rationale);
    var t4 := Then(i.action, t5);
    var t3 := Then(Size32(i.action), t4);
    Sized32(i.action, t5);
    var t2 := Then(i.resourceId, t3);
    var t1 := Then(Size16(i.resourceId), t2);
    Sized16(i.resourceId, t3);
    var t0 := Then(i.intentId, t1);
    assert Joined(t0) == i.intentId + Joined(t1);
    assert t0 == IntentFields(i);
  }

  predicate GrantBounds(g: Grant) {
    && |g.grantId| == |g.intentId| == 16 && |g.approver| == |g.subject| == |g.executor| == 32
    && |g.resourceId| <= 256 && |g.actionDigest| == 32 && |g.sig| == 64
  }

  function GrantFields(g: Grant): Fields
    requires GrantBounds(g)
  {
    Then([g.version], Then(g.grantId, Then(g.intentId, Then(g.approver, Then(g.subject, Then(g.executor,
    Then(Size16(g.resourceId), Then(g.resourceId, Then(g.actionDigest,
    Then(U64Bytes(g.notAfter), Then(g.sig, End)))))))))))
  }

  // Accepted are exactly these fields in this order, within these bounds, the signed part in front of the signature.
  lemma GrantLayout(w: bytes, g: Grant)
    ensures ParseGrant(w) == Ok(g) <==> GrantBounds(g) && w == Joined(GrantFields(g)) && Covers(w, g.tbs)
  {
    GrantRoundTrip(w, g);
    if GrantBounds(g) {
      GrantJoined(g);
      hide ParseGrant, EncodeGrant, Joined, GrantFields;
      EndsSignedGrant(g);
      if w == EncodeGrant(g) {
        SignedPart(w, g.tbs, g.sig);
      }
    }
  }

  lemma EndsSignedGrant(g: Grant)
    requires |g.sig| == 64
    ensures |EncodeGrant(g)| >= 64 && EncodeGrant(g)[|EncodeGrant(g)| - 64..] == g.sig
  {
  }

  lemma GrantJoined(g: Grant)
    requires GrantBounds(g)
    ensures Joined(GrantFields(g)) == EncodeGrant(g)
  {
    hide U16Bytes, U32Bytes, U64Bytes, Prefixed16, Prefixed32, Size16, Size32;
    var t10 := Then(g.sig, End);
    assert Joined(t10) == g.sig;
    var t9 := Then(U64Bytes(g.notAfter), t10);
    assert Joined(t9) == U64Bytes(g.notAfter) + Joined(t10);
    var t8 := Then(g.actionDigest, t9);
    assert Joined(t8) == g.actionDigest + Joined(t9);
    var t7 := Then(g.resourceId, t8);
    var t6 := Then(Size16(g.resourceId), t7);
    Sized16(g.resourceId, t8);
    var t5 := Then(g.executor, t6);
    assert Joined(t5) == g.executor + Joined(t6);
    var t4 := Then(g.subject, t5);
    assert Joined(t4) == g.subject + Joined(t5);
    var t3 := Then(g.approver, t4);
    assert Joined(t3) == g.approver + Joined(t4);
    var t2 := Then(g.intentId, t3);
    assert Joined(t2) == g.intentId + Joined(t3);
    var t1 := Then(g.grantId, t2);
    assert Joined(t1) == g.grantId + Joined(t2);
    var t0 := Then([g.version], t1);
    assert Joined(t0) == [g.version] + Joined(t1);
    assert t0 == GrantFields(g);
  }

  predicate RefusalBounds(f: Refusal) {
    && |f.intentId| == 16 && |f.note| <= 1024 && |f.sig| == 64
  }

  function RefusalFields(f: Refusal): Fields
    requires RefusalBounds(f)
  {
    Then(f.intentId, Then(Size16(f.note), Then(f.note, Then(f.sig, End))))
  }

  // Accepted are exactly these fields in this order, within these bounds, the signed part in front of the signature.
  lemma RefusalLayout(w: bytes, f: Refusal)
    ensures ParseRefusal(w) == Ok(f) <==> RefusalBounds(f) && w == Joined(RefusalFields(f)) && Covers(w, f.tbs)
  {
    RefusalRoundTrip(w, f);
    if RefusalBounds(f) {
      RefusalJoined(f);
      hide ParseRefusal, EncodeRefusal, Joined, RefusalFields;
      EndsSignedRefusal(f);
      if w == EncodeRefusal(f) {
        SignedPart(w, f.tbs, f.sig);
      }
    }
  }

  lemma EndsSignedRefusal(f: Refusal)
    requires |f.sig| == 64
    ensures |EncodeRefusal(f)| >= 64 && EncodeRefusal(f)[|EncodeRefusal(f)| - 64..] == f.sig
  {
  }

  lemma RefusalJoined(f: Refusal)
    requires RefusalBounds(f)
    ensures Joined(RefusalFields(f)) == EncodeRefusal(f)
  {
    hide U16Bytes, U32Bytes, U64Bytes, Prefixed16, Prefixed32, Size16, Size32;
    var t3 := Then(f.sig, End);
    assert Joined(t3) == f.sig;
    var t2 := Then(f.note, t3);
    var t1 := Then(Size16(f.note), t2);
    Sized16(f.note, t3);
    var t0 := Then(f.intentId, t1);
    assert Joined(t0) == f.intentId + Joined(t1);
    assert t0 == RefusalFields(f);
  }

  predicate SpanBounds(s: Span) {
    && |s.spanId| == |s.traceId| == 16 && |s.resourceId| <= 256
    && |s.origin| == |s.digest| == |s.executor| == 32 && |s.sig| == 64
  }

  function SpanFields(s: Span): Fields
    requires SpanBounds(s)
  {
    Then([s.version], Then(s.spanId, Then(s.traceId, Then(Size16(s.resourceId), Then(s.resourceId,
    Then([s.methodId], Then([s.volatility], Then(s.origin, Then(U64Bytes(s.observedAt), Then(s.digest,
    Then(s.executor, Then(s.sig, End))))))))))))
  }

  // Accepted are exactly these fields in this order, within these bounds, the signed part in front of the signature.
  lemma SpanLayout(w: bytes, s: Span)
    ensures ParseSpan(w) == Ok(s) <==> SpanBounds(s) && w == Joined(SpanFields(s)) && Covers(w, s.tbs)
  {
    SpanRoundTrip(w, s);
    if SpanBounds(s) {
      SpanJoined(s);
      hide ParseSpan, EncodeSpan, Joined, SpanFields;
      EndsSignedSpan(s);
      if w == EncodeSpan(s) {
        SignedPart(w, s.tbs, s.sig);
      }
    }
  }

  lemma EndsSignedSpan(s: Span)
    requires |s.sig| == 64
    ensures |EncodeSpan(s)| >= 64 && EncodeSpan(s)[|EncodeSpan(s)| - 64..] == s.sig
  {
  }

  lemma SpanJoined(s: Span)
    requires SpanBounds(s)
    ensures Joined(SpanFields(s)) == EncodeSpan(s)
  {
    hide U16Bytes, U32Bytes, U64Bytes, Prefixed16, Prefixed32, Size16, Size32;
    var t11 := Then(s.sig, End);
    assert Joined(t11) == s.sig;
    var t10 := Then(s.executor, t11);
    assert Joined(t10) == s.executor + Joined(t11);
    var t9 := Then(s.digest, t10);
    assert Joined(t9) == s.digest + Joined(t10);
    var t8 := Then(U64Bytes(s.observedAt), t9);
    assert Joined(t8) == U64Bytes(s.observedAt) + Joined(t9);
    var t7 := Then(s.origin, t8);
    assert Joined(t7) == s.origin + Joined(t8);
    var t6 := Then([s.volatility], t7);
    assert Joined(t6) == [s.volatility] + Joined(t7);
    var t5 := Then([s.methodId], t6);
    assert Joined(t5) == [s.methodId] + Joined(t6);
    var t4 := Then(s.resourceId, t5);
    var t3 := Then(Size16(s.resourceId), t4);
    Sized16(s.resourceId, t5);
    var t2 := Then(s.traceId, t3);
    assert Joined(t2) == s.traceId + Joined(t3);
    var t1 := Then(s.spanId, t2);
    assert Joined(t1) == s.spanId + Joined(t2);
    var t0 := Then([s.version], t1);
    assert Joined(t0) == [s.version] + Joined(t1);
    assert t0 == SpanFields(s);
  }

  // ---------- certificates ----------

  predicate CertBounds(c: Cert) {
    && |c.sigPubkey| == |c.kexPubkey| == 32 && |c.name| <= 64
    && c.scopeCount <= 8 && |c.scopeIds| == 8 * c.scopeCount
    && 1 <= c.caSigCount <= 4 && |c.caSigs| == 96 * c.caSigCount
    && forall k: nat :: k + 1 < c.caSigCount ==> Certs.KeysAscendAt(c.caSigs, k)
  }

  function SignedFields(c: Cert, rest: Fields): Fields
    requires |c.name| <= 64
  {
    Then([c.version], Then([c.roleBits], Then(c.sigPubkey, Then(c.kexPubkey,
    Then(U64Bytes(c.notBefore), Then(U64Bytes(c.notAfter),
    Then(Size16(c.name), Then(c.name, Then([c.scopeCount], Then(c.scopeIds, rest))))))))))
  }

  // Accepted are exactly these fields in this order, within these bounds and with ascending CA keys; what the CAs
  // sign is what stands before the number of their signatures.
  lemma CertLayout(w: bytes, c: Cert)
    ensures Certs.ParseCert(w) == Ok(c) <==>
              && CertBounds(c)
              && w == Joined(SignedFields(c, Then([c.caSigCount], Then(c.caSigs, End))))
              && c.tbs == Joined(SignedFields(c, End))
  {
    Certs.CertRoundTrip(w, c);
    Certs.AscendingIff(None, c.caSigs, c.caSigCount);
    if |c.name| <= 64 {
      CertJoined(c, Then([c.caSigCount], Then(c.caSigs, End)));
      CertJoined(c, End);
      var tail := [c.caSigCount] + c.caSigs;
      assert Joined(Then([c.caSigCount], Then(c.caSigs, End))) == tail;
      Reassociated(c, tail);
      Reassociated(c, []);
      hide Certs.ParseCert, Certs.Ascending, Joined, SignedFields, Certs.EncodeCert, Signed;
      SamePrefix(Signed(c, []), c.tbs, tail);
    }
  }

  // The signed part in front of something.
  function Signed(c: Cert, tail: bytes): bytes {
    [c.version] + ([c.roleBits] + (c.sigPubkey + (c.kexPubkey + (U64Bytes(c.notBefore)
    + (U64Bytes(c.notAfter) + (Prefixed16(c.name) + ([c.scopeCount] + (c.scopeIds + tail))))))))
  }

  lemma Reassociated(c: Cert, tail: bytes)
    ensures Signed(c, tail) == Signed(c, []) + tail
    ensures tail == [c.caSigCount] + c.caSigs ==> Certs.EncodeCert(c) == Signed(c, tail)
  {
  }

  lemma SamePrefix(a: bytes, b: bytes, tail: bytes)
    ensures a + tail == b + tail <==> a == b
  {
    if a + tail == b + tail {
      assert |a| == |b| && (a + tail)[..|a|] == a && (b + tail)[..|b|] == b;
    }
  }

  lemma CertJoined(c: Cert, rest: Fields)
    requires |c.name| <= 64
    ensures Joined(SignedFields(c, rest)) == Signed(c, Joined(rest))
  {
    hide U16Bytes, U64Bytes, Prefixed16, Size16;
    var t9 := Then(c.scopeIds, rest);
    assert Joined(t9) == c.scopeIds + Joined(rest);
    var t8 := Then([c.scopeCount], t9);
    assert Joined(t8) == [c.scopeCount] + Joined(t9);
    var t7 := Then(c.name, t8);
    var t6 := Then(Size16(c.name), t7);
    Sized16(c.name, t8);
    var t5 := Then(U64Bytes(c.notAfter), t6);
    assert Joined(t5) == U64Bytes(c.notAfter) + Joined(t6);
    var t4 := Then(U64Bytes(c.notBefore), t5);
    assert Joined(t4) == U64Bytes(c.notBefore) + Joined(t5);
    var t3 := Then(c.kexPubkey, t4);
    assert Joined(t3) == c.kexPubkey + Joined(t4);
    var t2 := Then(c.sigPubkey, t3);
    assert Joined(t2) == c.sigPubkey + Joined(t3);
    var t1 := Then([c.roleBits], t2);
    assert Joined(t1) == [c.roleBits] + Joined(t2);
    var t0 := Then([c.version], t1);
    assert Joined(t0) == [c.version] + Joined(t1);
    assert t0 == SignedFields(c, rest);
  }
}
