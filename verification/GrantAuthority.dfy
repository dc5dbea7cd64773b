/** Grant verification: the ladder of checks before an effect, and why a stored grant runs at most
    once, even after pruning has forgotten it. */
module GrantAuthority {
  import opened Base
  import opened Codec
  import opened Certs
  import Scope
  import Intents
  import GrantLog
  import GrantLedger

  const DOMAIN_GRANT: byte := 0x04
  const DOMAIN_REFUSAL: byte := 0x06
  const BODY_GRANT: byte := 3
  const BODY_REFUSAL: byte := 6

  datatype VerifyError =
    | BadVersion | BadEnvelopeBinding | BadSignature | BadKey | BadApproverCert | BadSubjectCert
    | ApproverRevoked | ApproverOutOfScope | SubjectRevoked | SubjectOutOfScope
    | WrongExecutor | WrongSubject | NoMatchingIntent | WrongResource | ActionDigestMismatch
    | Expired | AlreadyConsumed

  // Who proposed an intent, and the action proposed.
  datatype SenderEntry = SenderEntry(intentId: bytes, sender: bytes, action: bytes)

  datatype Context = Context(
    ownPubkey: bytes, approverCert: Cert, subjectCert: Cert,
    intents: seq<Intents.Entry>, senders: seq<SenderEntry>,
    now: u64, firstReceipt: u64, tMaxS: u64, tRecvS: u64)

  // Functions supplied from outside: signature check, hash, durable revocation.
  datatype Hooks = Hooks(verify: Verifier, hash: Scope.Hash, isRevoked: bytes -> bool)

  // No sum or product of the expiry check leaves 64 bits.
  predicate ClocksFit(c: Context) {
    && c.tMaxS * 1000 <= U64_MAX && c.tRecvS * 1000 <= U64_MAX
    && c.firstReceipt + c.tMaxS * 1000 <= U64_MAX && c.firstReceipt + c.tRecvS * 1000 <= U64_MAX
  }

  function VerifySigned(verify: Verifier, tag: byte, tbs: bytes, sig: bytes, pubkey: bytes): Result<(), VerifyError> {
    if |pubkey| != LEN_PUBKEY then Err(BadKey)
    else if |sig| != LEN_SIG then Err(BadSignature)
    else if verify(tag, tbs, sig, pubkey) then Ok(()) else Err(BadSignature)
  }

  function CheckExpiry(notAfter: u64, now: u64, firstReceipt: u64, tMaxS: u64, tRecvS: u64): Result<(), VerifyError> {
    if now >= notAfter then Err(Expired)
    else if notAfter > firstReceipt + tMaxS * 1000 then Err(Expired)
    else if now > firstReceipt + tRecvS * 1000 then Err(Expired)
    else Ok(())
  }

  function FirstSender(senders: seq<SenderEntry>, id: bytes): (r: Option<SenderEntry>)
    ensures r.Some? ==> r.value in senders && r.value.intentId == id
    ensures r.None? <==> forall s <- senders :: s.intentId != id
  {
    if senders == [] then None
    else if senders[0].intentId == id then Some(senders[0])
    else FirstSender(senders[1..], id)
  }

  function CheckRole(c: Cert, hasRole: bool, key: bytes, isRevoked: bytes -> bool,
                     bad: VerifyError, revoked: VerifyError): Result<(), VerifyError>
  {
    if !hasRole then Err(bad)
    else if c.sigPubkey != key then Err(bad)
    else if isRevoked(c.sigPubkey) then Err(revoked)
    else Ok(())
  }

  // Scope is a feature of certificates from version 3 on.
  ghost predicate InScope(c: Cert, hash: Scope.Hash, resource: bytes) {
    c.version >= 3 ==> Scope.Covers(c, hash, resource)
  }

  // The checks in the order they run; the first that fails is the answer. The lookups of the intent
  // and of its sender come before the envelope checks.
  ghost function VerifyGrant(env: Envelope, g: Grant, c: Context, hooks: Hooks, consumed: bool)
    : Result<(), VerifyError>
  {
    if g.version != 2 then Err(BadVersion)
    else if |g.intentId| != LEN_INTENT_ID then Err(BadEnvelopeBinding) else
    var idx := Intents.FirstPending(c.intents, g.intentId);
    if idx.None? then Err(NoMatchingIntent) else
    var intent := c.intents[idx.value];
    var sender := FirstSender(c.senders, g.intentId);
    if sender.None? then Err(NoMatchingIntent)
    else if env.bodyType != BODY_GRANT then Err(BadEnvelopeBinding)
    else if env.sender != g.approver then Err(BadEnvelopeBinding) else
    var _ :- VerifySigned(hooks.verify, DOMAIN_GRANT, g.tbs, g.sig, g.approver);
    var _ :- CheckRole(c.approverCert, IsApprover(c.approverCert.roleBits), g.approver, hooks.isRevoked,
                       BadApproverCert, ApproverRevoked);
    if !InScope(c.approverCert, hooks.hash, g.resourceId) then Err(ApproverOutOfScope) else
    var _ :- CheckRole(c.subjectCert, IsAgent(c.subjectCert.roleBits), g.subject, hooks.isRevoked,
                       BadSubjectCert, SubjectRevoked);
    if !InScope(c.subjectCert, hooks.hash, g.resourceId) then Err(SubjectOutOfScope)
    else if g.executor != c.ownPubkey then Err(WrongExecutor)
    else if g.subject != sender.value.sender then Err(WrongSubject)
    else if g.intentId != intent.intentId then Err(NoMatchingIntent)
    else if g.resourceId != intent.resource then Err(WrongResource)
    else if g.actionDigest != hooks.hash(sender.value.action) then Err(ActionDigestMismatch) else
    var _ :- CheckExpiry(g.notAfter, c.now, c.firstReceipt, c.tMaxS, c.tRecvS);
    if consumed then Err(AlreadyConsumed) else Ok(())
  }

  // ---------- what acceptance means ----------

  // The first pending intent of this id is on the resource.
  ghost predicate PendingOn(intents: seq<Intents.Entry>, id: bytes, resource: bytes) {
    exists i :: 0 <= i < |intents|
      && intents[i].status == Intents.Pending && intents[i].intentId == id && intents[i].resource == resource
      && forall k :: 0 <= k < i ==> !(intents[k].status == Intents.Pending && intents[k].intentId == id)
  }

  // The first record of who proposed this id names the sender and an action with this digest.
  ghost predicate ProposedBy(senders: seq<SenderEntry>, id: bytes, sender: bytes, digest: bytes, hash: Scope.Hash) {
    exists i :: 0 <= i < |senders|
      && senders[i].intentId == id && senders[i].sender == sender && hash(senders[i].action) == digest
      && forall k :: 0 <= k < i ==> senders[k].intentId != id
  }

  lemma PendingOnIff(intents: seq<Intents.Entry>, id: bytes, resource: bytes)
    ensures PendingOn(intents, id, resource) <==>
              var i := Intents.FirstPending(intents, id); i.Some? && intents[i.value].resource == resource
  {
    var i := Intents.FirstPending(intents, id);
    assert forall k :: 0 <= k < |intents| ==>
             (intents[k].PendingAs(id) <==> intents[k].status == Intents.Pending && intents[k].intentId == id);
    if i.Some? && intents[i.value].resource == resource {
      assert intents[i.value].PendingAs(id);
    }
  }

  lemma {:induction false} FirstSenderAt(senders: seq<SenderEntry>, id: bytes) returns (i: nat)
    requires FirstSender(senders, id).Some?
    ensures i < |senders| && senders[i] == FirstSender(senders, id).value
    ensures forall k :: 0 <= k < i ==> senders[k].intentId != id
  {
    if senders[0].intentId == id {
      i := 0;
    } else {
      var j := FirstSenderAt(senders[1..], id);
      i := j + 1;
      forall k | 0 <= k < i ensures senders[k].intentId != id {
        assert k > 0 ==> senders[k] == senders[1..][k - 1];
      }
    }
  }

  lemma ProposedByIff(senders: seq<SenderEntry>, id: bytes, sender: bytes, digest: bytes, hash: Scope.Hash)
    ensures ProposedBy(senders, id, sender, digest, hash) <==>
              var s := FirstSender(senders, id);
              s.Some? && s.value.sender == sender && hash(s.value.action) == digest
  {
    hide FirstSender;
    if FirstSender(senders, id).Some? {
      var i := FirstSenderAt(senders, id);
      assert senders[i].intentId == id;
    }
  }

  // A grant is accepted exactly when all of this holds, whatever the order of the checks. Each certificate is in
  // its role, names its key, is unrevoked, and from version 3 on lists the resource in its scope.
  lemma AcceptedIff(env: Envelope, g: Grant, c: Context, hooks: Hooks, consumed: bool)
    ensures VerifyGrant(env, g, c, hooks, consumed).Ok? <==>
            && g.version == 2 && |g.intentId| == 16 && env.bodyType == 3 && env.sender == g.approver
            && |g.approver| == 32 && |g.sig| == 64 && hooks.verify(0x04, g.tbs, g.sig, g.approver)
            && c.approverCert.roleBits / 8 % 2 == 1
            && c.approverCert.sigPubkey == g.approver && !hooks.isRevoked(g.approver)
            && (c.approverCert.version >= 3 ==> Scope.Covers(c.approverCert, hooks.hash, g.resourceId))
            && c.subjectCert.roleBits / 2 % 2 == 1
            && c.subjectCert.sigPubkey == g.subject && !hooks.isRevoked(g.subject)
            && (c.subjectCert.version >= 3 ==> Scope.Covers(c.subjectCert, hooks.hash, g.resourceId))
            && g.executor == c.ownPubkey
            && PendingOn(c.intents, g.intentId, g.resourceId)
            && ProposedBy(c.senders, g.intentId, g.subject, g.actionDigest, hooks.hash)
            && c.now < g.notAfter <= c.firstReceipt + 1000 * c.tMaxS
            && c.now <= c.firstReceipt + 1000 * c.tRecvS
            && !consumed
  {
    hide Scope.Covers, PendingOn, ProposedBy;
    PendingOnIff(c.intents, g.intentId, g.resourceId);
    ProposedByIff(c.senders, g.intentId, g.subject, g.actionDigest, hooks.hash);
  }

  // From version 3 on a certificate without scopes is good for nothing: no grant under it is accepted.
  lemma NoScopeNoGrant(env: Envelope, g: Grant, c: Context, hooks: Hooks, consumed: bool)
    requires || (c.approverCert.version >= 3 && c.approverCert.scopeCount == 0)
             || (c.subjectCert.version >= 3 && c.subjectCert.scopeCount == 0)
    ensures VerifyGrant(env, g, c, hooks, consumed).Err?
  {
    hide VerifyGrant, PendingOn, ProposedBy;
    AcceptedIff(env, g, c, hooks, consumed);
  }

  // A grant fails as already consumed exactly when nothing else is wrong with it.
  lemma ConsumedIsLast(env: Envelope, g: Grant, c: Context, hooks: Hooks)
    ensures VerifyGrant(env, g, c, hooks, true) == Err(AlreadyConsumed) <==> VerifyGrant(env, g, c, hooks, false).Ok?
  {
    hide InScope, Scope.Covers, CheckRole, VerifySigned, CheckExpiry;
    RoleErrors(c, g, hooks);
  }

  lemma RoleErrors(c: Context, g: Grant, hooks: Hooks)
    ensures CheckRole(c.approverCert, IsApprover(c.approverCert.roleBits), g.approver, hooks.isRevoked,
                      BadApproverCert, ApproverRevoked) != Err(AlreadyConsumed)
    ensures CheckRole(c.subjectCert, IsAgent(c.subjectCert.roleBits), g.subject, hooks.isRevoked,
                      BadSubjectCert, SubjectRevoked) != Err(AlreadyConsumed)
    ensures VerifySigned(hooks.verify, DOMAIN_GRANT, g.tbs, g.sig, g.approver) != Err(AlreadyConsumed)
    ensures CheckExpiry(g.notAfter, c.now, c.firstReceipt, c.tMaxS, c.tRecvS) != Err(AlreadyConsumed)
  {
  }

  // One certificate cannot serve as both approver and subject once its roles are validated: a grant
  // whose two certificates are the same one is never accepted.
  lemma OneCertNeverBoth(env: Envelope, g: Grant, c: Context, hooks: Hooks, consumed: bool, trusted: seq<bytes>)
    requires c.approverCert == c.subjectCert
    requires ValidateCertChain(c.approverCert, trusted, hooks.verify).Ok?
    ensures VerifyGrant(env, g, c, hooks, consumed).Err?
  {
    AcceptedIff(env, g, c, hooks, consumed);
    ChainSoundIff(c.approverCert, trusted, hooks.verify);
  }

  // ---------- the order of the checks ----------

  // The intent a grant answers and the record of who proposed it.
  function Lookup(g: Grant, c: Context): Result<(Intents.Entry, SenderEntry), VerifyError> {
    if |g.intentId| != LEN_INTENT_ID then Err(BadEnvelopeBinding) else
    var idx := Intents.FirstPending(c.intents, g.intentId);
    var sender := FirstSender(c.senders, g.intentId);
    if idx.None? || sender.None? then Err(NoMatchingIntent) else Ok((c.intents[idx.value], sender.value))
  }

  // Checks 1 to 5: the envelope, the signature, the two certificates, the executor.
  ghost function ChecksOneToFive(env: Envelope, g: Grant, c: Context, hooks: Hooks): Result<(), VerifyError> {
    if env.bodyType != BODY_GRANT || env.sender != g.approver then Err(BadEnvelopeBinding) else
    var _ :- VerifySigned(hooks.verify, DOMAIN_GRANT, g.tbs, g.sig, g.approver);
    var _ :- CheckRole(c.approverCert, IsApprover(c.approverCert.roleBits), g.approver, hooks.isRevoked,
                       BadApproverCert, ApproverRevoked);
    if !InScope(c.approverCert, hooks.hash, g.resourceId) then Err(ApproverOutOfScope) else
    var _ :- CheckRole(c.subjectCert, IsAgent(c.subjectCert.roleBits), g.subject, hooks.isRevoked,
                       BadSubjectCert, SubjectRevoked);
    if !InScope(c.subjectCert, hooks.hash, g.resourceId) then Err(SubjectOutOfScope)
    else if g.executor != c.ownPubkey then Err(WrongExecutor)
    else Ok(())
  }

  // Checks 6 to 11, on the intent and sender looked up.
  function ChecksSixToEleven(g: Grant, c: Context, hooks: Hooks, intent: Intents.Entry, sender: SenderEntry,
                             consumed: bool): Result<(), VerifyError>
  {
    if g.subject != sender.sender then Err(WrongSubject)
    else if g.intentId != intent.intentId then Err(NoMatchingIntent)
    else if g.resourceId != intent.resource then Err(WrongResource)
    else if g.actionDigest != hooks.hash(sender.action) then Err(ActionDigestMismatch) else
    var _ :- CheckExpiry(g.notAfter, c.now, c.firstReceipt, c.tMaxS, c.tRecvS);
    if consumed then Err(AlreadyConsumed) else Ok(())
  }

  // The ladder as its checks are numbered, 0 to 11: the lookups come where check 6 first needs them.
  ghost function VerifyNumbered(env: Envelope, g: Grant, c: Context, hooks: Hooks, consumed: bool)
    : Result<(), VerifyError>
  {
    if g.version != 2 then Err(BadVersion) else
    var _ :- ChecksOneToFive(env, g, c, hooks);
    var found :- Lookup(g, c);
    ChecksSixToEleven(g, c, hooks, found.0, found.1, consumed)
  }

  // The answer differs from that of the numbered order exactly when a lookup fails for a grant that also fails
  // one of checks 1 to 5: the grant is then refused as having no matching intent (as badly bound, when its
  // intent id has the wrong length), not for what is wrong with it. What is accepted is the same.
  lemma OrderDiffersIff(env: Envelope, g: Grant, c: Context, hooks: Hooks, consumed: bool)
    ensures VerifyGrant(env, g, c, hooks, consumed) != VerifyNumbered(env, g, c, hooks, consumed) <==>
              && g.version == 2 && Lookup(g, c).Err? && ChecksOneToFive(env, g, c, hooks).Err?
              && Lookup(g, c).error != ChecksOneToFive(env, g, c, hooks).error
    ensures Lookup(g, c).Err? <==>
              || |g.intentId| != LEN_INTENT_ID
              || (forall e <- c.intents :: !e.PendingAs(g.intentId))
              || (forall r <- c.senders :: r.intentId != g.intentId)
    ensures VerifyGrant(env, g, c, hooks, consumed).Ok? <==> VerifyNumbered(env, g, c, hooks, consumed).Ok?
  {
    hide InScope, CheckRole, VerifySigned, CheckExpiry, Scope.Covers;
  }

  // For instance, a grant in an envelope of another body type while no intent is pending.
  lemma OrderShows(env: Envelope, g: Grant, c: Context, hooks: Hooks, consumed: bool)
    requires g.version == 2 && |g.intentId| == LEN_INTENT_ID && env.bodyType != BODY_GRANT && c.intents == []
    ensures VerifyGrant(env, g, c, hooks, consumed) == Err(NoMatchingIntent)
    ensures VerifyNumbered(env, g, c, hooks, consumed) == Err(BadEnvelopeBinding)
  {
  }

  // ---------- running effects against the durable ledger ----------

  datatype Event =
    | Attempt(env: Envelope, grant: Grant, context: Context)
    | PruneAt(now: u64)
    | PublishAt(id: GrantLog.GrantId, now: u64)

  function Time(ev: Event): u64 {
    match ev
    case Attempt(_, _, c) => c.now
    case PruneAt(now) => now
    case PublishAt(_, now) => now
  }

  // An attempt runs its effect: the consumed hook asks the ledger, and everything else passes.
  ghost predicate Runs(s: GrantLog.State, ev: Event, hooks: Hooks) {
    && ev.Attempt? && |ev.grant.grantId| == LEN_GRANT_ID
    && VerifyGrant(ev.env, ev.grant, ev.context, hooks, ev.grant.grantId in s.consumed).Ok?
  }

  // The effect hook commits the grant; a failed commit is ignored.
  ghost function Next(s: GrantLog.State, ev: Event, hooks: Hooks): GrantLog.State {
    match ev
    case Attempt(_, g, c) =>
      if Runs(s, ev, hooks) then GrantLedger.CommitState(s, g.grantId, g.notAfter, c.now).1 else s
    case PruneAt(now) => GrantLedger.Prune(s, now)
    case PublishAt(id, _) => if id in s.published then s else GrantLog.Apply(s, GrantLog.Published(id))
  }

  // ---------- the routines ----------

  method CheckScope(c: Cert, hash: Scope.Hash, resource: bytes) returns (r: bool)
    ensures r <==> InScope(c, hash, resource)
    ensures r <==> (c.version >= 3 ==> Scope.Covers(c, hash, resource))
  {
    hide Scope.Covers;
    if c.version >= 3 {
      r := Scope.ScopeCoversResource(c, hash, resource);
    } else {
      r := true;
    }
  }

  // Verify against the ledger and run the shipped effect hook, which commits the grant.
  method VerifyGrantThen(env: Envelope, g: Grant, c: Context, hooks: Hooks, ledger: GrantLedger.GrantLedger)
    returns (r: Result<(), VerifyError>)
    requires ledger.Valid() && ledger.isOpen && !ledger.readOnly
    requires ClocksFit(c) && |g.grantId| == LEN_GRANT_ID
    modifies ledger
    ensures ledger.Valid()
    ensures r == VerifyGrant(env, g, c, hooks, g.grantId in old(ledger.consumed))
    ensures ledger.St() == Next(old(ledger.St()), Attempt(env, g, c), hooks)
  {
    hide InScope, CheckRole;
    if g.version != 2 {
      return Err(BadVersion);
    }
    if |g.intentId| != LEN_INTENT_ID {
      return Err(BadEnvelopeBinding);
    }
    var idx := Intents.FirstPending(c.intents, g.intentId);
    if idx.None? {
      return Err(NoMatchingIntent);
    }
    var intent := c.intents[idx.value];
    var sender := FirstSender(c.senders, g.intentId);
    if sender.None? {
      return Err(NoMatchingIntent);
    }
    if env.bodyType != BODY_GRANT {
      return Err(BadEnvelopeBinding);
    }
    if env.sender != g.approver {
      return Err(BadEnvelopeBinding);
    }
    var _ :- VerifySigned(hooks.verify, DOMAIN_GRANT, g.tbs, g.sig, g.approver);
    var _ :- CheckRole(c.approverCert, IsApprover(c.approverCert.roleBits), g.approver, hooks.isRevoked,
                       BadApproverCert, ApproverRevoked);
    var approverInScope := CheckScope(c.approverCert, hooks.hash, g.resourceId);
    if !approverInScope {
      return Err(ApproverOutOfScope);
    }
    var _ :- CheckRole(c.subjectCert, IsAgent(c.subjectCert.roleBits), g.subject, hooks.isRevoked,
                       BadSubjectCert, SubjectRevoked);
    var subjectInScope := CheckScope(c.subjectCert, hooks.hash, g.resourceId);
    if !subjectInScope {
      return Err(SubjectOutOfScope);
    }
    if g.executor != c.ownPubkey {
      return Err(WrongExecutor);
    }
    if g.subject != sender.value.sender {
      return Err(WrongSubject);
    }
    if g.intentId != intent.intentId {
      return Err(NoMatchingIntent);
    }
    if g.resourceId != intent.resource {
      return Err(WrongResource);
    }
    if g.actionDigest != hooks.hash(sender.value.action) {
      return Err(ActionDigestMismatch);
    }
    var _ :- CheckExpiry(g.notAfter, c.now, c.firstReceipt, c.tMaxS, c.tRecvS);
    var consumed := ledger.IsConsumed(g.grantId);
    if consumed {
      return Err(AlreadyConsumed);
    }
    var _ := ledger.CommitConsumed(g.grantId, g.notAfter, c.now);
    return Ok(());
  }

  // A verified refusal rejects the pending intent it names.
  method VerifyRefusalThen(env: Envelope, f: Refusal, approverCert: Cert, verify: Verifier, table: Intents.Table)
    returns (r: Result<bool, VerifyError>)
    modifies table
    ensures r == if env.bodyType != BODY_REFUSAL then Err(BadEnvelopeBinding)
                 else if VerifySigned(verify, DOMAIN_REFUSAL, f.tbs, f.sig, env.sender).Err? then
                   Err(VerifySigned(verify, DOMAIN_REFUSAL, f.tbs, f.sig, env.sender).error)
                 else if !IsApprover(approverCert.roleBits) || approverCert.sigPubkey != env.sender
                  then Err(BadApproverCert)
                 else if |f.intentId| != LEN_INTENT_ID then Err(BadEnvelopeBinding)
                 else Ok(exists e <- old(table.entries) :: e.PendingAs(f.intentId))
    ensures r.Ok? <==>
              && env.bodyType == 6 && |env.sender| == 32 && |f.sig| == 64 && verify(0x06, f.tbs, f.sig, env.sender)
              && approverCert.roleBits / 8 % 2 == 1 && approverCert.sigPubkey == env.sender && |f.intentId| == 16
    ensures table.entries
          == if r.Ok? then Intents.ApplyRefusal(old(table.entries), f.intentId).1 else old(table.entries)
  {
    if env.bodyType != BODY_REFUSAL {
      return Err(BadEnvelopeBinding);
    }
    var _ :- VerifySigned(verify, DOMAIN_REFUSAL, f.tbs, f.sig, env.sender);
    if !IsApprover(approverCert.roleBits) {
      return Err(BadApproverCert);
    }
    if approverCert.sigPubkey != env.sender {
      return Err(BadApproverCert);
    }
    if |f.intentId| != LEN_INTENT_ID {
      return Err(BadEnvelopeBinding);
    }
    var outcome := table.Refuse(f.intentId);
    return Ok(outcome == Intents.Rejected);
  }
}
