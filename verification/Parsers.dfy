/** The parsers as they run, over a cursor that advances through the buffer, and the encoders as
    they append to an output. */
module Parsers {
  import opened Base
  import opened Wire
  import opened Codec
  import opened Certs

  class Cursor {
    const buf: bytes
    var pos: nat

    ghost predicate Valid()
      reads this
    {
      pos <= |buf|
    }

    // What is left to read.
    function Rest(): bytes
      requires Valid()
      reads this
    {
      buf[pos..]
    }

    constructor (buf: bytes)
      ensures Valid() && this.buf == buf && Rest() == buf
    {
      this.buf, pos := buf, 0;
    }

    // The bytes read so far.
    method Consumed() returns (s: bytes)
      requires Valid()
      ensures s == Before(buf, Rest())
    {
      return buf[..pos];
    }

    method Need(n: nat) returns (r: Result<(), ParseError>)
      requires Valid()
      ensures r == if n <= |Rest()| then Ok(()) else Err(Truncated)
    {
      return if pos + n <= |buf| then Ok(()) else Err(Truncated);
    }

    method Bytes(n: nat) returns (r: Result<bytes, ParseError>)
      requires Valid()
      modifies this
      ensures Valid()
      ensures r.Ok? ==> Take(old(Rest()), n) == Ok((r.value, Rest()))
      ensures r.Err? ==> Take(old(Rest()), n) == Err(r.error)
      ensures r.Ok? ==> pos == old(pos) + n && r.value == buf[old(pos)..pos]
    {
      var _ :- Need(n);
      ghost var before := Rest();
      var s := buf[pos..pos + n];
      pos := pos + n;
      assert before[..n] == s && before[n..] == Rest();
      return Ok(s);
    }

    method U8() returns (r: Result<byte, ParseError>)
      requires Valid()
      modifies this
      ensures Valid()
      ensures r.Ok? ==> TakeU8(old(Rest())) == Ok((r.value, Rest()))
      ensures r.Err? ==> TakeU8(old(Rest())) == Err(r.error)
    {
      var _ :- Need(1);
      var v := buf[pos];
      pos := pos + 1;
      return Ok(v);
    }

    method U16() returns (r: Result<u16, ParseError>)
      requires Valid()
      modifies this
      ensures Valid()
      ensures r.Ok? ==> TakeU16(old(Rest())) == Ok((r.value, Rest()))
      ensures r.Err? ==> TakeU16(old(Rest())) == Err(r.error)
    {
      var b :- Bytes(2);
      return Ok(U16Of(b));
    }

    method U32() returns (r: Result<u32, ParseError>)
      requires Valid()
      modifies this
      ensures Valid()
      ensures r.Ok? ==> TakeU32(old(Rest())) == Ok((r.value, Rest()))
      ensures r.Err? ==> TakeU32(old(Rest())) == Err(r.error)
    {
      var b :- Bytes(4);
      return Ok(U32Of(b));
    }

    method U64() returns (r: Result<u64, ParseError>)
      requires Valid()
      modifies this
      ensures Valid()
      ensures r.Ok? ==> TakeU64(old(Rest())) == Ok((r.value, Rest()))
      ensures r.Err? ==> TakeU64(old(Rest())) == Err(r.error)
    {
      var b :- Bytes(8);
      return Ok(U64Of(b));
    }

    method LongField(max: nat) returns (r: Result<bytes, ParseError>)
      requires Valid() && max < 0x1_0000_0000
      modifies this
      ensures Valid()
      ensures r.Ok? ==> Field32(old(Rest()), max) == Ok((r.value, Rest()))
      ensures r.Err? ==> Field32(old(Rest()), max) == Err(r.error)
    {
      var len :- U32();
      if len > max {
        return Err(Oversize);
      }
      r := Bytes(len);
    }

    method ShortField(max: nat) returns (r: Result<bytes, ParseError>)
      requires Valid() && max < 0x1_0000
      modifies this
      ensures Valid()
      ensures r.Ok? ==> Field16(old(Rest()), max) == Ok((r.value, Rest()))
      ensures r.Err? ==> Field16(old(Rest()), max) == Err(r.error)
    {
      var len :- U16();
      if len > max {
        return Err(Oversize);
      }
      r := Bytes(len);
    }
  }

  method ReadEnvelope(buf: bytes) returns (r: Result<Envelope, ParseError>)
    ensures r == ParseEnvelope(buf)
  {
    hide Cursor.Rest, Before, Take, TakeU8, TakeU64, Field32, U64Bytes, Prefixed32;
    var c := new Cursor(buf);
    var version :- c.U8();
    var channelId :- c.Bytes(LEN_CHANNEL_ID);
    var sender :- c.Bytes(LEN_PUBKEY);
    var seqNo :- c.U64();
    var parentCount :- c.U8();
    if parentCount > MAX_PARENTS {
      return Err(Oversize);
    }
    var parents :- c.Bytes(parentCount * LEN_PARENT);
    var ts :- c.U64();
    var bodyType :- c.U8();
    var body :- c.LongField(MAX_BODY);
    var tbs := c.Consumed();
    var sig :- c.Bytes(LEN_SIG);
    if c.Rest() != [] {
      return Err(TrailingBytes);
    }
    return Ok(Envelope(version, channelId, sender, seqNo, parentCount, parents, ts, bodyType, body, tbs, sig));
  }

  method ReadIntent(buf: bytes) returns (r: Result<Intent, ParseError>)
    ensures r == ParseIntent(buf)
  {
    hide Cursor.Rest, Before, Take, Field16, Field32;
    var c := new Cursor(buf);
    var intentId :- c.Bytes(LEN_INTENT_ID);
    var resourceId :- c.ShortField(MAX_RESOURCE);
    var action :- c.LongField(MAX_ACTION);
    var rationale :- c.ShortField(MAX_RATIONALE);
    if c.Rest() != [] {
      return Err(TrailingBytes);
    }
    return Ok(Intent(intentId, resourceId, action, rationale));
  }

  method ReadGrant(buf: bytes) returns (r: Result<Grant, ParseError>)
    ensures r == ParseGrant(buf)
  {
    hide Cursor.Rest, Before, Take, TakeU8, TakeU64, Field16;
    var c := new Cursor(buf);
    var version :- c.U8();
    var grantId :- c.Bytes(LEN_GRANT_ID);
    var intentId :- c.Bytes(LEN_INTENT_ID);
    var approver :- c.Bytes(LEN_PUBKEY);
    var subject :- c.Bytes(LEN_PUBKEY);
    var executor :- c.Bytes(LEN_PUBKEY);
    var resourceId :- c.ShortField(MAX_RESOURCE);
    var actionDigest :- c.Bytes(LEN_ACTION_DIGEST);
    var notAfter :- c.U64();
    var tbs := c.Consumed();
    var sig :- c.Bytes(LEN_SIG);
    if c.Rest() != [] {
      return Err(TrailingBytes);
    }
    return Ok(Grant(version, grantId, intentId, approver, subject, executor, resourceId, actionDigest,
                    notAfter, tbs, sig));
  }

  method ReadRefusal(buf: bytes) returns (r: Result<Refusal, ParseError>)
    ensures r == ParseRefusal(buf)
  {
    hide Cursor.Rest, Before, Take, Field16;
    var c := new Cursor(buf);
    var intentId :- c.Bytes(LEN_INTENT_ID);
    var note :- c.ShortField(MAX_NOTE);
    var tbs := c.Consumed();
    var sig :- c.Bytes(LEN_SIG);
    if c.Rest() != [] {
      return Err(TrailingBytes);
    }
    return Ok(Refusal(intentId, note, tbs, sig));
  }

  method ReadSpan(buf: bytes) returns (r: Result<Span, ParseError>)
    ensures r == ParseSpan(buf)
  {
    hide Cursor.Rest, Before, Take, TakeU8, TakeU64, Field16;
    var c := new Cursor(buf);
    var version :- c.U8();
    var spanId :- c.Bytes(LEN_SPAN_ID);
    var traceId :- c.Bytes(LEN_TRACE_ID);
    var resourceId :- c.ShortField(MAX_RESOURCE);
    var methodId :- c.U8();
    var volatility :- c.U8();
    var origin :- c.Bytes(LEN_ORIGIN);
    var observedAt :- c.U64();
    var digest :- c.Bytes(LEN_DIGEST);
    var executor :- c.Bytes(LEN_PUBKEY);
    var tbs := c.Consumed();
    var sig :- c.Bytes(LEN_SIG);
    if c.Rest() != [] {
      return Err(TrailingBytes);
    }
    return Ok(Span(version, spanId, traceId, resourceId, methodId, volatility, origin, observedAt, digest,
                   executor, tbs, sig));
  }

  // The CA-key loop: each key must be above the one before it.
  method ReadCaPairs(c: Cursor, count: byte) returns (r: Result<bytes, ParseError>)
    requires c.Valid()
    modifies c
    ensures c.Valid()
    ensures r.Ok? ==> ReadPairs(old(c.Rest()), count, None) == Ok((r.value, c.Rest()))
    ensures r.Err? ==> ReadPairs(old(c.Rest()), count, None) == Err(r.error)
  {
    hide Take, ReadPairs, LexLess;
    var caStart := c.pos;
    var prevKey: bytes := [];
    ghost var all := ReadPairs(c.Rest(), count, None);
    ghost var done: bytes := [];
    assert forall b: bytes :: done + b == b;
    for i := 0 to count
      invariant c.Valid() && caStart <= c.pos && done == c.buf[caStart..c.pos]
      invariant Continues(all, done, ReadPairs(c.Rest(), count - i, if i == 0 then None else Some(prevKey)))
    {
      ghost var rest, prev := c.Rest(), if i == 0 then None else Some(prevKey);
      PairRefused(rest, count - i, prev);
      var caKey :- c.Bytes(LEN_CA_KEY);
      if i > 0 && !LexLess(prevKey, caKey) {
        return Err(Malformed);
      }
      prevKey := caKey;
      ghost var afterKey := c.Rest();
      var sig :- c.Bytes(LEN_SIG);
      OnePairDone(all, done, rest, caKey, afterKey, sig, c.Rest(), count - i, prev);
      done := done + (caKey + sig);
    }
    NoPairs(c.Rest(), if count == 0 then None else Some(prevKey));
    assert done + [] == done;
    return Ok(c.buf[caStart..c.pos]);
  }

  // Reading everything is reading the rest after what is done.
  ghost predicate Continues(all: Read<bytes>, done: bytes, more: Read<bytes>) {
    match more
    case Ok((pairs, rest)) => all == Ok((done + pairs, rest))
    case Err(e) => all == Err(e)
  }

  lemma NoPairs(rest: bytes, prev: Option<bytes>)
    ensures ReadPairs(rest, 0, prev) == Ok(([], rest))
  {
  }

  // The three ways reading a pair fails.
  lemma PairRefused(rest: bytes, n: nat, prev: Option<bytes>)
    requires n > 0
    ensures match Take(rest, LEN_CA_KEY)
            case Err(e) => ReadPairs(rest, n, prev) == Err(e)
            case Ok((key, r)) =>
              if prev.Some? && !LexLess(prev.value, key) then ReadPairs(rest, n, prev) == Err(Malformed)
              else Take(r, LEN_SIG).Err? ==> ReadPairs(rest, n, prev) == Err(Take(r, LEN_SIG).error)
  {
    hide Take, LexLess;
  }

  lemma OnePairDone(all: Read<bytes>, done: bytes, rest: bytes, key: bytes, afterKey: bytes, sig: bytes,
                    afterSig: bytes, n: nat, prev: Option<bytes>)
    requires n > 0 && Continues(all, done, ReadPairs(rest, n, prev))
    requires Take(rest, LEN_CA_KEY) == Ok((key, afterKey)) && Take(afterKey, LEN_SIG) == Ok((sig, afterSig))
    requires prev.Some? ==> LexLess(prev.value, key)
    ensures Continues(all, done + (key + sig), ReadPairs(afterSig, n - 1, Some(key)))
  {
    hide Take;
    match ReadPairs(afterSig, n - 1, Some(key))
    case Ok((more, _)) =>
      assert done + (key + sig + more) == done + (key + sig) + more;
    case Err(_) =>
  }

  method ReadCert(buf: bytes) returns (r: Result<Cert, ParseError>)
    ensures r == ParseCert(buf)
  {
    hide Cursor.Rest, Before, Take, TakeU8, TakeU64, Field16, ReadPairs;
    var c := new Cursor(buf);
    var version :- c.U8();
    var roleBits :- c.U8();
    var sigPubkey :- c.Bytes(LEN_PUBKEY);
    var kexPubkey :- c.Bytes(LEN_PUBKEY);
    var notBefore :- c.U64();
    var notAfter :- c.U64();
    var name :- c.ShortField(MAX_NAME);
    var scopeCount :- c.U8();
    if scopeCount > MAX_SCOPE {
      return Err(Oversize);
    }
    var scopeIds :- c.Bytes(scopeCount * LEN_SCOPE_ID);
    var tbs := c.Consumed();
    var caSigCount :- c.U8();
    if caSigCount == 0 {
      return Err(Malformed);
    }
    if caSigCount > MAX_CA_SIGS {
      return Err(Oversize);
    }
    var caSigs :- ReadCaPairs(c, caSigCount);
    if c.Rest() != [] {
      return Err(TrailingBytes);
    }
    return Ok(Cert(version, roleBits, sigPubkey, kexPubkey, notBefore, notAfter, name,
                   scopeCount, scopeIds, caSigCount, caSigs, tbs));
  }

  // ---------- encoders ----------

  method WriteEnvelope(e: Envelope) returns (out: bytes)
    ensures out == EncodeEnvelope(e)
  {
    hide U64Bytes, Prefixed16, Prefixed32;
    out := [e.version];
    out := out + e.channelId;
    out := out + e.sender;
    out := out + U64Bytes(e.seqNo);
    out := out + [e.parentCount];
    out := out + e.parents;
    out := out + U64Bytes(e.ts);
    out := out + [e.bodyType];
    out := out + Prefixed32(e.body);
    out := out + e.sig;
  }

  method WriteIntent(i: Intent) returns (out: bytes)
    ensures out == EncodeIntent(i)
  {
    hide U64Bytes, Prefixed16, Prefixed32;
    out := i.intentId;
    out := out + Prefixed16(i.resourceId);
    out := out + Prefixed32(i.action);
    out := out + Prefixed16(i.rationale);
  }

  method WriteGrant(g: Grant) returns (out: bytes)
    ensures out == EncodeGrant(g)
  {
    hide U64Bytes, Prefixed16, Prefixed32;
    out := [g.version];
    out := out + g.grantId;
    out := out + g.intentId;
    out := out + g.approver;
    out := out + g.subject;
    out := out + g.executor;
    out := out + Prefixed16(g.resourceId);
    out := out + g.actionDigest;
    out := out + U64Bytes(g.notAfter);
    out := out + g.sig;
  }

  method WriteRefusal(f: Refusal) returns (out: bytes)
    ensures out == EncodeRefusal(f)
  {
    hide U64Bytes, Prefixed16, Prefixed32;
    out := f.intentId;
    out := out + Prefixed16(f.note);
    out := out + f.sig;
  }

  method WriteSpan(s: Span) returns (out: bytes)
    ensures out == EncodeSpan(s)
  {
    hide U64Bytes, Prefixed16, Prefixed32;
    out := [s.version];
    out := out + s.spanId;
    out := out + s.traceId;
    out := out + Prefixed16(s.resourceId);
    out := out + [s.methodId];
    out := out + [s.volatility];
    out := out + s.origin;
    out := out + U64Bytes(s.observedAt);
    out := out + s.digest;
    out := out + s.executor;
    out := out + s.sig;
  }

  method WriteCert(c: Cert) returns (out: bytes)
    ensures out == EncodeCert(c)
  {
    hide U64Bytes, Prefixed16, Prefixed32;
    out := [c.version];
    out := out + [c.roleBits];
    out := out + c.sigPubkey;
    out := out + c.kexPubkey;
    out := out + U64Bytes(c.notBefore);
    out := out + U64Bytes(c.notAfter);
    out := out + Prefixed16(c.name);
    out := out + [c.scopeCount];
    out := out + c.scopeIds;
    out := out + [c.caSigCount];
    out := out + c.caSigs;
  }
}
