/** Runs of grant attempts against the ledger: when a grant has its effect again, across pruning, publishing,
    a full ledger and crashes. */
module GrantRuns {
  import opened Base
  import opened Codec
  import opened Certs
  import opened GrantAuthority
  import Scope
  import Intents
  import GrantLog
  import GrantLedger
  import GrantRecords
  import GrantRewrite

  ghost function After(s: GrantLog.State, evs: seq<Event>, hooks: Hooks): GrantLog.State
    decreases evs
  {
    if evs == [] then s else After(Next(s, evs[0], hooks), evs[1..], hooks)
  }

  ghost predicate ClockMonotone(evs: seq<Event>) {
    forall i, j :: 0 <= i < j < |evs| ==> Time(evs[i]) <= Time(evs[j])
  }

  ghost predicate Publishes(evs: seq<Event>, id: bytes) {
    exists i :: 0 <= i < |evs| && evs[i].PublishAt? && evs[i].id == id
  }

  // The grant is on record with this expiry, or its expiry has passed.
  ghost predicate StoredOrPast(s: GrantLog.State, id: GrantLog.GrantId, expiry: u64, now: u64) {
    (id in s.consumed && s.consumed[id] == expiry) || now >= expiry
  }

  lemma StepKeepsStored(s: GrantLog.State, ev: Event, hooks: Hooks, id: GrantLog.GrantId, expiry: u64, now: u64)
    requires StoredOrPast(s, id, expiry, now) && now <= Time(ev)
    requires !(ev.PublishAt? && ev.id == id)
    ensures StoredOrPast(Next(s, ev, hooks), id, expiry, Time(ev))
  {
    hide VerifyGrant;
  }

  lemma {:induction false} RunKeepsStored(s: GrantLog.State, evs: seq<Event>, hooks: Hooks,
                                          id: GrantLog.GrantId, expiry: u64, now: u64)
    requires StoredOrPast(s, id, expiry, now) && !Publishes(evs, id)
    requires ClockMonotone(evs) && (evs != [] ==> now <= Time(evs[0]))
    ensures StoredOrPast(After(s, evs, hooks), id, expiry, if evs == [] then now else Time(evs[|evs| - 1]))
    decreases evs
  {
    if evs != [] {
      assert forall i :: 0 <= i < |evs| - 1 ==> evs[1..][i] == evs[i + 1];
      StepKeepsStored(s, evs[0], hooks, id, expiry, now);
      RunKeepsStored(Next(s, evs[0], hooks), evs[1..], hooks, id, expiry, Time(evs[0]));
    }
  }

  lemma ClockBetween(first: Event, between: seq<Event>, again: Event)
    requires ClockMonotone([first] + between + [again])
    ensures ClockMonotone(between)
    ensures between != [] ==> Time(first) <= Time(between[0]) && Time(between[|between| - 1]) <= Time(again)
    ensures Time(first) <= Time(again)
  {
    var all := [first] + between + [again];
    assert all[0] == first && all[|between| + 1] == again;
    assert forall i :: 0 <= i < |between| ==> all[i + 1] == between[i];
    forall i, j | 0 <= i < j < |between| ensures Time(between[i]) <= Time(between[j]) {
      assert Time(all[i + 1]) <= Time(all[j + 1]);
    }
    assert Time(all[0]) <= Time(all[1]) && Time(all[|between|]) <= Time(all[|between| + 1]);
    assert Time(all[0]) <= Time(all[|between| + 1]);
  }

  // Once an effect has run and its grant is stored, and until the grant is published, a later attempt
  // under the same grant id runs only if it carries a later expiry, pruned or not.
  lemma RunsAtMostOnce(s: GrantLog.State, first: Event, between: seq<Event>, again: Event, hooks: Hooks)
    requires ClockMonotone([first] + between + [again])
    requires first.Attempt? && again.Attempt? && again.grant.grantId == first.grant.grantId
    requires !Publishes(between, first.grant.grantId)
    requires Runs(s, first, hooks) && Stores(s, first)
    requires Runs(After(Next(s, first, hooks), between, hooks), again, hooks)
    ensures again.grant.notAfter > first.grant.notAfter
  {
    hide VerifyGrant, ClockMonotone;
    var id, expiry := first.grant.grantId, first.grant.notAfter;
    var s1 := Next(s, first, hooks);
    ClockBetween(first, between, again);
    CommitStoredIff(s, first, hooks);
    CommitStores(s, first, hooks);
    RunKeepsStored(s1, between, hooks, id, expiry, Time(first));
    RunImpliesFresh(After(s1, between, hooks), again, hooks);
  }

  // So the very same grant does not have its effect again, pruned or not, while it is unpublished.
  lemma GrantRunsAtMostOnce(s: GrantLog.State, first: Event, between: seq<Event>, again: Event, hooks: Hooks)
    requires ClockMonotone([first] + between + [again])
    requires first.Attempt? && again.Attempt? && again.grant == first.grant
    requires !Publishes(between, first.grant.grantId)
    requires Runs(s, first, hooks) && Stores(s, first)
    ensures !Runs(After(Next(s, first, hooks), between, hooks), again, hooks)
  {
    if Runs(After(Next(s, first, hooks), between, hooks), again, hooks) {
      RunsAtMostOnce(s, first, between, again, hooks);
    }
  }

  lemma CommitStores(s: GrantLog.State, ev: Event, hooks: Hooks)
    requires Runs(s, ev, hooks) && ev.grant.grantId in Next(s, ev, hooks).consumed
    ensures Next(s, ev, hooks).consumed[ev.grant.grantId] == ev.grant.notAfter
  {
    RunImpliesFresh(s, ev, hooks);
    hide VerifyGrant;
  }

  lemma RunImpliesFresh(s: GrantLog.State, ev: Event, hooks: Hooks)
    requires Runs(s, ev, hooks)
    ensures ev.grant.grantId !in s.consumed && ev.context.now < ev.grant.notAfter
  {
    AcceptedIff(ev.env, ev.grant, ev.context, hooks, ev.grant.grantId in s.consumed);
  }

  // ---------- publishing ----------

  // Published and out of the commits: it stays so.
  ghost predicate Gone(s: GrantLog.State, id: GrantLog.GrantId) {
    id in s.published && id !in s.consumed
  }

  lemma {:induction false} RunKeepsGone(s: GrantLog.State, evs: seq<Event>, hooks: Hooks, id: GrantLog.GrantId)
    requires Gone(s, id)
    ensures Gone(After(s, evs, hooks), id)
    decreases evs
  {
    hide VerifyGrant;
    if evs != [] {
      RunKeepsGone(Next(s, evs[0], hooks), evs[1..], hooks, id);
    }
  }

  lemma {:induction false} PublishedInRun(s: GrantLog.State, evs: seq<Event>, hooks: Hooks, id: GrantLog.GrantId)
    requires id !in s.published && Publishes(evs, id)
    ensures Gone(After(s, evs, hooks), id)
    decreases evs
  {
    hide VerifyGrant;
    var next := Next(s, evs[0], hooks);
    if evs[0].PublishAt? && evs[0].id == id {
      RunKeepsGone(next, evs[1..], hooks, id);
    } else {
      assert Publishes(evs[1..], id) by {
        var i :| 0 <= i < |evs| && evs[i].PublishAt? && evs[i].id == id;
        assert evs[1..][i - 1] == evs[i];
      }
      PublishedInRun(next, evs[1..], hooks, id);
    }
  }

  // At-most-once has one exact limit. After an effect whose commit was stored, on a clock that does not go
  // back, an attempt on the same grant that passes every other check has its effect again exactly when the
  // grant was published in between.
  lemma RunsAgainIffPublished(s: GrantLog.State, first: Event, between: seq<Event>, again: Event, hooks: Hooks)
    requires ClockMonotone([first] + between + [again])
    requires first.Attempt? && again.Attempt? && again.grant == first.grant
    requires Runs(s, first, hooks) && Stores(s, first)
    requires VerifyGrant(again.env, again.grant, again.context, hooks, false).Ok?
    ensures Runs(After(Next(s, first, hooks), between, hooks), again, hooks)
            <==> Publishes(between, first.grant.grantId)
  {
    var id, s1 := first.grant.grantId, Next(s, first, hooks);
    CommitStoredIff(s, first, hooks);
    hide VerifyGrant;
    if Publishes(between, id) {
      PublishedInRun(s1, between, hooks, id);
    } else {
      GrantRunsAtMostOnce(s, first, between, again, hooks);
    }
  }

  // ---------- a commit that is not stored ----------

  // The ledger takes the attempt's commit: the grant has not been published, and pruning leaves room.
  predicate Stores(s: GrantLog.State, ev: Event)
    requires ev.Attempt? && |ev.grant.grantId| == LEN_GRANT_ID
  {
    && ev.grant.grantId !in s.published
    && (|s.consumed| < GrantLedger.MAX_LIVE
        || |GrantLedger.Prune(s, ev.context.now).consumed| < GrantLedger.MAX_LIVE)
  }

  lemma CommitStoredIff(s: GrantLog.State, ev: Event, hooks: Hooks)
    requires Runs(s, ev, hooks)
    ensures ev.grant.grantId in Next(s, ev, hooks).consumed <==> Stores(s, ev)
    ensures Stores(s, ev) ==> ev.grant.grantId !in Next(s, ev, hooks).published
  {
    RunImpliesFresh(s, ev, hooks);
    hide VerifyGrant;
  }

  // The effect of an attempt is had again on an immediate retry exactly when the ledger, as it was before
  // the attempt, held the grant as published or 1024 unexpired commits.
  lemma RetriedIffNotStorable(s: GrantLog.State, ev: Event, hooks: Hooks)
    requires Runs(s, ev, hooks)
    ensures Runs(Next(s, ev, hooks), ev, hooks) <==> !Stores(s, ev)
  {
    var id := ev.grant.grantId;
    CommitStoredIff(s, ev, hooks);
    AcceptedIff(ev.env, ev.grant, ev.context, hooks, id in s.consumed);
    AcceptedIff(ev.env, ev.grant, ev.context, hooks, id in Next(s, ev, hooks).consumed);
    hide VerifyGrant;
  }

  // For instance: an attempt at time 10 that passes every check, for a grant good until 100.
  function Filled32(b: byte): bytes {
    seq(LEN_PUBKEY, _ => b)
  }

  function SampleHooks(): Hooks {
    Hooks((tag, tbs, sig, key) => true, name => [], key => false)
  }

  function SampleCert(roleBits: byte, key: bytes): Cert {
    Cert(2, roleBits, key, [], 0, 0, [], 0, [], 0, [], [])
  }

  function SampleAttempt(id: GrantLog.GrantId): (ev: Event)
    ensures ev.Attempt? && ev.grant.grantId == id && ev.grant.notAfter == 100 && ev.context.now == 10
  {
    var intent := seq(LEN_INTENT_ID, _ => 0 as byte);
    var approver, subject, executor := Filled32(1), Filled32(2), Filled32(3);
    Attempt(
      Envelope(1, [], approver, 0, 0, [], 0, BODY_GRANT, [], [], []),
      Grant(2, id, intent, approver, subject, executor, [], [], 100, [], seq(LEN_SIG, _ => 0)),
      Context(executor, SampleCert(8, approver), SampleCert(2, subject),
              [Intents.Entry(intent, [], Intents.Pending, 0)], [SenderEntry(intent, subject, [])], 10, 10, 1, 1))
  }

  lemma SampleRuns(s: GrantLog.State, id: GrantLog.GrantId)
    requires id !in s.consumed
    ensures Runs(s, SampleAttempt(id), SampleHooks())
  {
    var ev, hooks := SampleAttempt(id), SampleHooks();
    var c := ev.context;
    assert c.intents[0].PendingAs(ev.grant.intentId) && c.intents[0] in c.intents;
    assert c.senders[0].intentId == ev.grant.intentId && c.senders[0] in c.senders;
    AcceptedIff(ev.env, ev.grant, c, hooks, false);
    hide VerifyGrant;
  }

  // A full ledger: 1024 grants committed at time 0 and good until 100. The attempt has its effect, its commit
  // is refused for want of room, and the same attempt has its effect again.
  lemma FullLedgerRepeats()
    ensures var ops, id := GrantRewrite.Fill(1024, 100, 100), GrantRewrite.IdOf(1024);
            var s, ev, hooks := GrantLedger.After(ops).st, SampleAttempt(id), SampleHooks();
            && GrantLedger.Appending(ops)
            && Runs(s, ev, hooks)
            && GrantLedger.CommitState(s, id, 100, 10).0 == Err(GrantLedger.ResourceExhausted)
            && Runs(Next(s, ev, hooks), ev, hooks)
  {
    hide GrantLedger.After, GrantLedger.Appending, GrantRewrite.Fill, GrantRewrite.Crowd, VerifyGrant, SampleAttempt;
    GrantRewrite.Filled(1024, 100, 100);
    FullRefuses(GrantLedger.After(GrantRewrite.Fill(1024, 100, 100)).st, 1024);
  }

  lemma FullRefuses(s: GrantLog.State, full: nat)
    requires full == GrantLedger.MAX_LIVE && s.consumed == GrantRewrite.Crowd(full, 100, 100) && s.published == {}
    ensures var id, hooks := GrantRewrite.IdOf(full), SampleHooks();
            var ev := SampleAttempt(id);
            && Runs(s, ev, hooks)
            && GrantLedger.CommitState(s, id, 100, 10).0 == Err(GrantLedger.ResourceExhausted)
            && Runs(Next(s, ev, hooks), ev, hooks)
  {
    hide GrantRewrite.Crowd, GrantRewrite.IdOf, SampleAttempt, SampleHooks, Runs, Next;
    hide GrantLedger.Prune, GrantLedger.CommitState;
    var id := GrantRewrite.IdOf(full);
    var ev := SampleAttempt(id);
    CrowdOfLive(full);
    NoRoom(s, id, 100, 10);
    assert !Stores(s, ev);
    SampleRuns(s, id);
    RetriedIffNotStorable(s, ev, SampleHooks());
  }

  // Full, and nothing has expired: pruning does not help.
  lemma NoRoom(s: GrantLog.State, id: GrantLog.GrantId, expiry: u64, now: u64)
    requires |s.consumed| == GrantLedger.MAX_LIVE && id !in s.consumed && id !in s.published
    requires forall k <- s.consumed.Keys :: s.consumed[k] > now
    ensures GrantLedger.Prune(s, now) == s
    ensures GrantLedger.CommitState(s, id, expiry, now).0 == Err(GrantLedger.ResourceExhausted)
  {
    assert !GrantLedger.Expired(s, now);
  }

  lemma CrowdOfLive(full: nat)
    requires full <= GrantLedger.MAX_LIVE
    ensures var m := GrantRewrite.Crowd(full, 100, 100);
            GrantRewrite.IdOf(full) !in m && forall k <- m.Keys :: m[k] > 10
  {
    hide GrantRewrite.Crowd;
  }

  // ---------- across a crash ----------

  // Committed with this expiry and unpublished, or published for good.
  ghost predicate LiveOrGone(s: GrantLog.State, id: GrantLog.GrantId, expiry: u64) {
    (id in s.consumed && s.consumed[id] == expiry && id !in s.published) || Gone(s, id)
  }

  lemma {:induction false} CommitKept(ops: seq<GrantLedger.Op>, i: nat, id: GrantLog.GrantId, expiry: u64)
    requires GrantLedger.Appending(ops) && i <= |ops|
    requires LiveOrGone(GrantLedger.After(ops[..i]).st, id, expiry)
    ensures LiveOrGone(GrantLedger.After(ops).st, id, expiry)
    decreases |ops|
  {
    hide GrantLedger.After;
    if i < |ops| {
      var init := ops[..|ops| - 1];
      assert init[..i] == ops[..i];
      CommitKept(init, i, id, expiry);
      GrantLedger.AfterLast(ops);
    } else {
      assert ops[..i] == ops;
    }
  }

  // At most once, also across a crash. Cut the log of any run anywhere behind the record of a commit and
  // recover. On a clock that does not go back after the recovery, an attempt under that id that expires no
  // later and passes every other check has its effect exactly when the grant is published: in what was
  // recovered, or since.
  lemma AtMostOnceAcrossCrash(ops: seq<GrantLedger.Op>, j: nat, n: nat, after: seq<Event>, again: Event, hooks: Hooks)
    requires GrantLedger.Appending(ops) && j < |ops| && ops[j].DoCommit?
    requires GrantLedger.Logged(GrantLedger.After(ops[..j]).st, ops[j]).Some?
    requires |GrantLedger.After(ops[..j + 1]).file| <= n <= |GrantLedger.After(ops).file|
    requires ClockMonotone(after + [again])
    requires again.Attempt? && again.grant.grantId == ops[j].id && again.grant.notAfter <= ops[j].expiry
    requires VerifyGrant(again.env, again.grant, again.context, hooks, false).Ok?
    ensures var recovered := GrantLog.Replayed(GrantLedger.After(ops).file[..n]);
            Runs(After(recovered, after, hooks), again, hooks)
            <==> ops[j].id in recovered.published || Publishes(after, ops[j].id)
  {
    hide GrantLedger.After, GrantLedger.Appending, GrantLog.Replayed, VerifyGrant;
    var m := GrantRecords.CutKeeps(ops, j + 1, n);
    var to := ops[..j + 1];
    GrantLedger.AppendingPrefix(ops, j + 1);
    assert to[..|to| - 1] == ops[..j] && ops[..m][..j + 1] == to;
    CommitRecorded(to);
    CommitKept(ops[..m], j + 1, ops[j].id, ops[j].expiry);
    RunsIffGone(GrantLedger.After(ops[..m]).st, after, again, hooks, ops[j].id, ops[j].expiry);
  }

  lemma CommitRecorded(ops: seq<GrantLedger.Op>)
    requires ops != [] && GrantLedger.Appending(ops) && ops[|ops| - 1].DoCommit?
    requires GrantLedger.Logged(GrantLedger.After(ops[..|ops| - 1]).st, ops[|ops| - 1]).Some?
    ensures LiveOrGone(GrantLedger.After(ops).st, ops[|ops| - 1].id, ops[|ops| - 1].expiry)
  {
    hide GrantLedger.After;
    GrantLedger.AfterLast(ops);
  }

  lemma RunsIffGone(s: GrantLog.State, evs: seq<Event>, again: Event, hooks: Hooks, id: GrantLog.GrantId, expiry: u64)
    requires LiveOrGone(s, id, expiry) && ClockMonotone(evs + [again])
    requires again.Attempt? && again.grant.grantId == id && again.grant.notAfter <= expiry
    requires VerifyGrant(again.env, again.grant, again.context, hooks, false).Ok?
    ensures Runs(After(s, evs, hooks), again, hooks) <==> id in s.published || Publishes(evs, id)
  {
    hide VerifyGrant;
    if id in s.published {
      RunKeepsGone(s, evs, hooks, id);
    } else if Publishes(evs, id) {
      PublishedInRun(s, evs, hooks, id);
    } else {
      NeverAfter(s, evs, again, hooks, id, expiry);
    }
  }

  lemma NeverAfter(s: GrantLog.State, evs: seq<Event>, again: Event, hooks: Hooks, id: GrantLog.GrantId, expiry: u64)
    requires id in s.consumed && s.consumed[id] == expiry && !Publishes(evs, id)
    requires ClockMonotone(evs + [again])
    requires again.Attempt? && again.grant.grantId == id && again.grant.notAfter <= expiry
    ensures !Runs(After(s, evs, hooks), again, hooks)
  {
    hide VerifyGrant;
    var all := evs + [again];
    assert ClockMonotone(evs) by {
      forall i, j | 0 <= i < j < |evs| ensures Time(evs[i]) <= Time(evs[j]) {
        assert Time(all[i]) <= Time(all[j]);
      }
    }
    RunKeepsStored(s, evs, hooks, id, expiry, if evs == [] then 0 else Time(evs[0]));
    if evs != [] {
      assert Time(all[|evs| - 1]) <= Time(all[|evs|]);
    }
    if Runs(After(s, evs, hooks), again, hooks) {
      RunImpliesFresh(After(s, evs, hooks), again, hooks);
    }
  }
}
