/** The post-authentication wire formats: parsers over what is left of the buffer, canonical
    encoders, and the proof that each parser accepts exactly the encodings of well-formed values. */
module Codec {
  import opened Base
  import opened Wire

  const MAX_MESSAGE := 1048576
  const MAX_HEADER := 512
  const MAX_BODY := MAX_MESSAGE - MAX_HEADER
  const LEN_PUBKEY := 32
  const LEN_SIG := 64
  const MAX_PARENTS := 4
  const MAX_RESOURCE := 256
  const MAX_ACTION := 262144
  const MAX_RATIONALE := 4096
  const MAX_NOTE := 1024
  const MAX_NAME := 64
  const MAX_SCOPE := 8
  const MAX_CA_SIGS := 4
  const LEN_CHANNEL_ID := 32
  const LEN_PARENT := 32
  const LEN_INTENT_ID := 16
  const LEN_GRANT_ID := 16
  const LEN_ACTION_DIGEST := 32
  const LEN_SCOPE_ID := 8
  const LEN_CA_KEY := 32
  const LEN_CA_PAIR := 96
  const LEN_SPAN_ID := 16
  const LEN_TRACE_ID := 16
  const LEN_ORIGIN := 32
  const LEN_DIGEST := 32

  datatype ParseError = Truncated | Oversize | TrailingBytes | Malformed

  datatype Envelope = Envelope(
    version: byte, channelId: bytes, sender: bytes, seqNo: u64, parentCount: byte, parents: bytes,
    ts: u64, bodyType: byte, body: bytes, tbs: bytes, sig: bytes)

  datatype Intent = Intent(intentId: bytes, resourceId: bytes, action: bytes, rationale: bytes)

  datatype Grant = Grant(
    version: byte, grantId: bytes, intentId: bytes, approver: bytes, subject: bytes, executor: bytes,
    resourceId: bytes, actionDigest: bytes, notAfter: u64, tbs: bytes, sig: bytes)

  datatype Refusal = Refusal(intentId: bytes, note: bytes, tbs: bytes, sig: bytes)

  datatype Span = Span(
    version: byte, spanId: bytes, traceId: bytes, resourceId: bytes, methodId: byte, volatility: byte,
    origin: bytes, observedAt: u64, digest: bytes, executor: bytes, tbs: bytes, sig: bytes)

  datatype Cert = Cert(
    version: byte, roleBits: byte, sigPubkey: bytes, kexPubkey: bytes, notBefore: u64, notAfter: u64,
    name: bytes, scopeCount: byte, scopeIds: bytes, caSigCount: byte, caSigs: bytes, tbs: bytes)

  // ---------- reading from the front of what is left ----------

  type Read<T> = Result<(T, bytes), ParseError>

  function Take(rest: bytes, n: nat): (r: Read<bytes>)
    ensures r.Ok? ==> |r.value.0| == n && rest == r.value.0 + r.value.1
  {
    if n <= |rest| then Ok((rest[..n], rest[n..])) else Err(Truncated)
  }

  function TakeU8(rest: bytes): (r: Read<byte>)
    ensures r.Ok? ==> rest == [r.value.0] + r.value.1
  {
    var (b, rest') :- Take(rest, 1);
    Ok((b[0], rest'))
  }

  function TakeU16(rest: bytes): (r: Read<u16>)
    ensures r.Ok? ==> rest == U16Bytes(r.value.0) + r.value.1
  {
    var (b, rest') :- Take(rest, 2);
    Ok((U16Of(b), rest'))
  }

  function TakeU32(rest: bytes): (r: Read<u32>)
    ensures r.Ok? ==> rest == U32Bytes(r.value.0) + r.value.1
  {
    var (b, rest') :- Take(rest, 4);
    Ok((U32Of(b), rest'))
  }

  function TakeU64(rest: bytes): (r: Read<u64>)
    ensures r.Ok? ==> rest == U64Bytes(r.value.0) + r.value.1
  {
    var (b, rest') :- Take(rest, 8);
    Ok((U64Of(b), rest'))
  }

  // A field with a 16-bit length, refused before it is read when longer than allowed.
  function Field16(rest: bytes, max: nat): (r: Read<bytes>)
    requires max < 0x1_0000
    ensures r.Ok? ==> |r.value.0| <= max && rest == Prefixed16(r.value.0) + r.value.1
  {
    var (len, rest') :- TakeU16(rest);
    if len > max then Err(Oversize) else Take(rest', len)
  }

  function Field32(rest: bytes, max: nat): (r: Read<bytes>)
    requires max < 0x1_0000_0000
    ensures r.Ok? ==> |r.value.0| <= max && rest == Prefixed32(r.value.0) + r.value.1
  {
    var (len, rest') :- TakeU32(rest);
    if len > max then Err(Oversize) else Take(rest', len)
  }

  // Length prefixes of the encoders; the length is cast to the prefix's width.
  function Prefixed16(v: bytes): bytes {
    U16Bytes(|v| % 0x1_0000) + v
  }

  function Prefixed32(v: bytes): bytes {
    U32Bytes(|v| % 0x1_0000_0000) + v
  }

  // Each reader takes back what the matching writer put in front.

  lemma TakeFront(v: bytes, t: bytes)
    ensures Take(v + t, |v|) == Ok((v, t))
  {
  }

  lemma U8Front(b: byte, t: bytes)
    ensures TakeU8([b] + t) == Ok((b, t))
  {
  }

  lemma U64Front(x: u64, t: bytes)
    ensures TakeU64(U64Bytes(x) + t) == Ok((x, t))
  {
    TakeFront(U64Bytes(x), t);
    U64RoundTrip(x);
  }

  lemma Field16Front(v: bytes, t: bytes, max: nat)
    requires |v| <= max < 0x1_0000
    ensures Field16(Prefixed16(v) + t, max) == Ok((v, t))
  {
    assert Prefixed16(v) + t == U16Bytes(|v|) + (v + t);
    TakeFront(U16Bytes(|v|), v + t);
    U16RoundTrip(|v|);
    TakeFront(v, t);
  }

  lemma Field32Front(v: bytes, t: bytes, max: nat)
    requires |v| <= max < 0x1_0000_0000
    ensures Field32(Prefixed32(v) + t, max) == Ok((v, t))
  {
    assert Prefixed32(v) + t == U32Bytes(|v|) + (v + t);
    TakeFront(U32Bytes(|v|), v + t);
    U32RoundTrip(|v|);
    TakeFront(v, t);
  }

  // The part of buf before what is left.
  function Before(buf: bytes, rest: bytes): bytes {
    if |rest| <= |buf| then buf[..|buf| - |rest|] else []
  }

  // ---------- envelope ----------

  function EncodeEnvelope(e: Envelope): bytes {
    [e.version] + (e.channelId + (e.sender + (U64Bytes(e.seqNo) + ([e.parentCount] + (e.parents
    + (U64Bytes(e.ts) + ([e.bodyType] + (Prefixed32(e.body) + e.sig))))))))
  }

  predicate FitsEnvelope(e: Envelope) {
    && |e.channelId| == LEN_CHANNEL_ID && |e.sender| == LEN_PUBKEY && |e.sig| == LEN_SIG
    && e.parentCount <= MAX_PARENTS && |e.parents| == e.parentCount * LEN_PARENT
    && |e.body| <= MAX_BODY
    && EncodeEnvelope(e) == e.tbs + e.sig
  }

  function ParseEnvelope(buf: bytes): Result<Envelope, ParseError> {
    var (version, r) :- TakeU8(buf);
    var (channelId, r) :- Take(r, LEN_CHANNEL_ID);
    var (sender, r) :- Take(r, LEN_PUBKEY);
    var (seqNo, r) :- TakeU64(r);
    var (parentCount, r) :- TakeU8(r);
    if parentCount > MAX_PARENTS then Err(Oversize) else
    var (parents, r) :- Take(r, parentCount * LEN_PARENT);
    var (ts, r) :- TakeU64(r);
    var (bodyType, r) :- TakeU8(r);
    var (body, r) :- Field32(r, MAX_BODY);
    var tbs := Before(buf, r);
    var (sig, r) :- Take(r, LEN_SIG);
    if r != [] then Err(TrailingBytes)
    else Ok(Envelope(version, channelId, sender, seqNo, parentCount, parents, ts, bodyType, body, tbs, sig))
  }

  lemma EnvelopeParsed(w: bytes)
    requires ParseEnvelope(w).Ok?
    ensures var e := ParseEnvelope(w).value;
            FitsEnvelope(e) && EncodeEnvelope(e) == w
  {
    hide Take, TakeU8, TakeU16, TakeU32, TakeU64, Field16, Field32, Prefixed16, Prefixed32, U64Bytes;
    var e := ParseEnvelope(w).value;
    assert EncodeEnvelope(e) == w;
    assert w == e.tbs + e.sig;
  }

  lemma EnvelopeEncoded(e: Envelope)
    requires FitsEnvelope(e)
    ensures ParseEnvelope(EncodeEnvelope(e)) == Ok(e)
  {
    hide Take, TakeU8, TakeU64, Field16, Field32, Prefixed16, Prefixed32, U64Bytes;
    var t9 := Prefixed32(e.body) + e.sig;
    var t8 := [e.bodyType] + t9;
    var t7 := U64Bytes(e.ts) + t8;
    var t6 := e.parents + t7;
    var t5 := [e.parentCount] + t6;
    var t4 := U64Bytes(e.seqNo) + t5;
    var t3 := e.sender + t4;
    var t2 := e.channelId + t3;
    U8Front(e.version, t2);
    TakeFront(e.channelId, t3);
    TakeFront(e.sender, t4);
    U64Front(e.seqNo, t5);
    U8Front(e.parentCount, t6);
    TakeFront(e.parents, t7);
    U64Front(e.ts, t8);
    U8Front(e.bodyType, t9);
    Field32Front(e.body, e.sig, MAX_BODY);
    TakeFront(e.sig, []);
    assert e.sig + [] == e.sig;
    assert Before(EncodeEnvelope(e), e.sig) == e.tbs;
  }

  // The parser accepts exactly the encodings of well-formed envelopes, and gives them back.
  lemma EnvelopeRoundTrip(w: bytes, e: Envelope)
    ensures ParseEnvelope(w) == Ok(e) <==> FitsEnvelope(e) && EncodeEnvelope(e) == w
  {
    if ParseEnvelope(w) == Ok(e) {
      EnvelopeParsed(w);
    }
    if FitsEnvelope(e) && EncodeEnvelope(e) == w {
      EnvelopeEncoded(e);
    }
  }

  // ---------- intent ----------

  function EncodeIntent(i: Intent): bytes {
    i.intentId + (Prefixed16(i.resourceId) + (Prefixed32(i.action) + Prefixed16(i.rationale)))
  }

  predicate FitsIntent(i: Intent) {
    && |i.intentId| == LEN_INTENT_ID && |i.resourceId| <= MAX_RESOURCE
    && |i.action| <= MAX_ACTION && |i.rationale| <= MAX_RATIONALE
  }

  function ParseIntent(buf: bytes): Result<Intent, ParseError> {
    var (intentId, r) :- Take(buf, LEN_INTENT_ID);
    var (resourceId, r) :- Field16(r, MAX_RESOURCE);
    var (action, r) :- Field32(r, MAX_ACTION);
    var (rationale, r) :- Field16(r, MAX_RATIONALE);
    if r != [] then Err(TrailingBytes) else Ok(Intent(intentId, resourceId, action, rationale))
  }

  lemma IntentEncoded(i: Intent)
    requires FitsIntent(i)
    ensures ParseIntent(EncodeIntent(i)) == Ok(i)
  {
    var t3 := Prefixed16(i.rationale);
    var t2 := Prefixed32(i.action) + t3;
    TakeFront(i.intentId, Prefixed16(i.resourceId) + t2);
    Field16Front(i.resourceId, t2, MAX_RESOURCE);
    Field32Front(i.action, t3, MAX_ACTION);
    Field16Front(i.rationale, [], MAX_RATIONALE);
    assert t3 + [] == t3;
  }

  lemma IntentParsed(w: bytes)
    requires ParseIntent(w).Ok?
    ensures var i := ParseIntent(w).value;
            FitsIntent(i) && EncodeIntent(i) == w
  {
    hide Take, TakeU16, TakeU32, Field16, Field32, Prefixed16, Prefixed32;
  }

  lemma IntentRoundTrip(w: bytes, i: Intent)
    ensures ParseIntent(w) == Ok(i) <==> FitsIntent(i) && EncodeIntent(i) == w
  {
    if ParseIntent(w) == Ok(i) {
      IntentParsed(w);
    }
    if FitsIntent(i) && EncodeIntent(i) == w {
      IntentEncoded(i);
    }
  }

  // ---------- grant ----------

  function EncodeGrant(g: Grant): bytes {
    [g.version] + (g.grantId + (g.intentId + (g.approver + (g.subject + (g.executor
    + (Prefixed16(g.resourceId) + (g.actionDigest + (U64Bytes(g.notAfter) + g.sig))))))))
  }

  predicate FitsGrant(g: Grant) {
    && |g.grantId| == LEN_GRANT_ID && |g.intentId| == LEN_INTENT_ID
    && |g.approver| == |g.subject| == |g.executor| == LEN_PUBKEY
    && |g.resourceId| <= MAX_RESOURCE && |g.actionDigest| == LEN_ACTION_DIGEST && |g.sig| == LEN_SIG
    && EncodeGrant(g) == g.tbs + g.sig
  }

  function ParseGrant(buf: bytes): Result<Grant, ParseError> {
    var (version, r) :- TakeU8(buf);
    var (grantId, r) :- Take(r, LEN_GRANT_ID);
    var (intentId, r) :- Take(r, LEN_INTENT_ID);
    var (approver, r) :- Take(r, LEN_PUBKEY);
    var (subject, r) :- Take(r, LEN_PUBKEY);
    var (executor, r) :- Take(r, LEN_PUBKEY);
    var (resourceId, r) :- Field16(r, MAX_RESOURCE);
    var (actionDigest, r) :- Take(r, LEN_ACTION_DIGEST);
    var (notAfter, r) :- TakeU64(r);
    var tbs := Before(buf, r);
    var (sig, r) :- Take(r, LEN_SIG);
    if r != [] then Err(TrailingBytes)
    else Ok(Grant(version, grantId, intentId, approver, subject, executor, resourceId, actionDigest,
                  notAfter, tbs, sig))
  }

  lemma GrantParsed(w: bytes)
    requires ParseGrant(w).Ok?
    ensures var g := ParseGrant(w).value;
            FitsGrant(g) && EncodeGrant(g) == w
  {
    hide Take, TakeU8, TakeU16, TakeU32, TakeU64, Field16, Field32, Prefixed16, Prefixed32, U64Bytes;
    var g := ParseGrant(w).value;
    assert EncodeGrant(g) == w;
    assert w == g.tbs + g.sig;
  }

  lemma GrantEncoded(g: Grant)
    requires FitsGrant(g)
    ensures ParseGrant(EncodeGrant(g)) == Ok(g)
  {
    hide Take, TakeU8, TakeU64, Field16, Field32, Prefixed16, Prefixed32, U64Bytes;
    var t9 := U64Bytes(g.notAfter) + g.sig;
    var t8 := g.actionDigest + t9;
    var t7 := Prefixed16(g.resourceId) + t8;
    var t6 := g.executor + t7;
    var t5 := g.subject + t6;
    var t4 := g.approver + t5;
    var t3 := g.intentId + t4;
    var t2 := g.grantId + t3;
    U8Front(g.version, t2);
    TakeFront(g.grantId, t3);
    TakeFront(g.intentId, t4);
    TakeFront(g.approver, t5);
    TakeFront(g.subject, t6);
    TakeFront(g.executor, t7);
    Field16Front(g.resourceId, t8, MAX_RESOURCE);
    TakeFront(g.actionDigest, t9);
    U64Front(g.notAfter, g.sig);
    TakeFront(g.sig, []);
    assert g.sig + [] == g.sig;
    assert Before(EncodeGrant(g), g.sig) == g.tbs;
  }

  lemma GrantRoundTrip(w: bytes, g: Grant)
    ensures ParseGrant(w) == Ok(g) <==> FitsGrant(g) && EncodeGrant(g) == w
  {
    if ParseGrant(w) == Ok(g) {
      GrantParsed(w);
    }
    if FitsGrant(g) && EncodeGrant(g) == w {
      GrantEncoded(g);
    }
  }

  // ---------- refusal ----------

  function EncodeRefusal(f: Refusal): bytes {
    f.intentId + (Prefixed16(f.note) + f.sig)
  }

  predicate FitsRefusal(f: Refusal) {
    && |f.intentId| == LEN_INTENT_ID && |f.note| <= MAX_NOTE && |f.sig| == LEN_SIG
    && EncodeRefusal(f) == f.tbs + f.sig
  }

  function ParseRefusal(buf: bytes): Result<Refusal, ParseError> {
    var (intentId, r) :- Take(buf, LEN_INTENT_ID);
    var (note, r) :- Field16(r, MAX_NOTE);
    var tbs := Before(buf, r);
    var (sig, r) :- Take(r, LEN_SIG);
    if r != [] then Err(TrailingBytes) else Ok(Refusal(intentId, note, tbs, sig))
  }

  lemma RefusalEncoded(f: Refusal)
    requires FitsRefusal(f)
    ensures ParseRefusal(EncodeRefusal(f)) == Ok(f)
  {
    TakeFront(f.intentId, Prefixed16(f.note) + f.sig);
    Field16Front(f.note, f.sig, MAX_NOTE);
    TakeFront(f.sig, []);
    assert f.sig + [] == f.sig;
    assert Before(EncodeRefusal(f), f.sig) == f.tbs;
  }

  lemma RefusalParsed(w: bytes)
    requires ParseRefusal(w).Ok?
    ensures var f := ParseRefusal(w).value;
            FitsRefusal(f) && EncodeRefusal(f) == w
  {
    hide Take, TakeU16, TakeU32, Field16, Field32, Prefixed16, Prefixed32;
  }

  lemma RefusalRoundTrip(w: bytes, f: Refusal)
    ensures ParseRefusal(w) == Ok(f) <==> FitsRefusal(f) && EncodeRefusal(f) == w
  {
    if ParseRefusal(w) == Ok(f) {
      RefusalParsed(w);
    }
    if FitsRefusal(f) && EncodeRefusal(f) == w {
      RefusalEncoded(f);
    }
  }

  // ---------- span ----------

  function EncodeSpan(s: Span): bytes {
    [s.version] + (s.spanId + (s.traceId + (Prefixed16(s.resourceId) + ([s.methodId] + ([s.volatility]
    + (s.origin + (U64Bytes(s.observedAt) + (s.digest + (s.executor + s.sig)))))))))
  }

  predicate FitsSpan(s: Span) {
    && |s.spanId| == LEN_SPAN_ID && |s.traceId| == LEN_TRACE_ID && |s.resourceId| <= MAX_RESOURCE
    && |s.origin| == LEN_ORIGIN && |s.digest| == LEN_DIGEST && |s.executor| == LEN_PUBKEY && |s.sig| == LEN_SIG
    && EncodeSpan(s) == s.tbs + s.sig
  }

  function ParseSpan(buf: bytes): Result<Span, ParseError> {
    var (version, r) :- TakeU8(buf);
    var (spanId, r) :- Take(r, LEN_SPAN_ID);
    var (traceId, r) :- Take(r, LEN_TRACE_ID);
    var (resourceId, r) :- Field16(r, MAX_RESOURCE);
    var (methodId, r) :- TakeU8(r);
    var (volatility, r) :- TakeU8(r);
    var (origin, r) :- Take(r, LEN_ORIGIN);
    var (observedAt, r) :- TakeU64(r);
    var (digest, r) :- Take(r, LEN_DIGEST);
    var (executor, r) :- Take(r, LEN_PUBKEY);
    var tbs := Before(buf, r);
    var (sig, r) :- Take(r, LEN_SIG);
    if r != [] then Err(TrailingBytes)
    else Ok(Span(version, spanId, traceId, resourceId, methodId, volatility, origin, observedAt, digest,
                 executor, tbs, sig))
  }

  lemma SpanParsed(w: bytes)
    requires ParseSpan(w).Ok?
    ensures var s := ParseSpan(w).value;
            FitsSpan(s) && EncodeSpan(s) == w
  {
    hide Take, TakeU8, TakeU16, TakeU32, TakeU64, Field16, Field32, Prefixed16, Prefixed32, U64Bytes;
    var s := ParseSpan(w).value;
    assert EncodeSpan(s) == w;
    assert w == s.tbs + s.sig;
  }

  lemma SpanEncoded(s: Span)
    requires FitsSpan(s)
    ensures ParseSpan(EncodeSpan(s)) == Ok(s)
  {
    hide Take, TakeU8, TakeU64, Field16, Field32, Prefixed16, Prefixed32, U64Bytes;
    var t10 := s.executor + s.sig;
    var t9 := s.digest + t10;
    var t8 := U64Bytes(s.observedAt) + t9;
    var t7 := s.origin + t8;
    var t6 := [s.volatility] + t7;
    var t5 := [s.methodId] + t6;
    var t4 := Prefixed16(s.resourceId) + t5;
    var t3 := s.traceId + t4;
    U8Front(s.version, s.spanId + t3);
    TakeFront(s.spanId, t3);
    TakeFront(s.traceId, t4);
    Field16Front(s.resourceId, t5, MAX_RESOURCE);
    U8Front(s.methodId, t6);
    U8Front(s.volatility, t7);
    TakeFront(s.origin, t8);
    U64Front(s.observedAt, t9);
    TakeFront(s.digest, t10);
    TakeFront(s.executor, s.sig);
    TakeFront(s.sig, []);
    assert s.sig + [] == s.sig;
    assert Before(EncodeSpan(s), s.sig) == s.tbs;
  }

  lemma SpanRoundTrip(w: bytes, s: Span)
    ensures ParseSpan(w) == Ok(s) <==> FitsSpan(s) && EncodeSpan(s) == w
  {
    if ParseSpan(w) == Ok(s) {
      SpanParsed(w);
    }
    if FitsSpan(s) && EncodeSpan(s) == w {
      SpanEncoded(s);
    }
  }
}
