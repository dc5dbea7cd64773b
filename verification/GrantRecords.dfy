/** What the ledger has on record: exactly which calls record what, over runs and across a cut of the log. */
module GrantRecords {
  import opened Base
  import opened Collections
  import opened GrantLog
  import opened GrantLedger
  import Wire

  // ---------- what one call records ----------

  ghost predicate Writable(h: Handle) {
    h.isOpen && !h.readOnly
  }

  // The handle after a record was written at the position and remembered.
  ghost predicate Recorded(h: Handle, after: Handle, rec: bytes, st: State)
    requires h.offset <= |h.file|
  {
    after == h.(file := WriteAt(h.file, h.offset, rec), offset := h.offset + |rec|, st := st)
  }

  // A known grant is left alone, a full table refuses, anything else is recorded.
  lemma CommitRecords(h: Handle, id: GrantId, expiry: u64, now: u64)
    requires h.offset <= |h.file| && Writable(h) && !Rewrites(h.st, DoCommit(id, expiry, now))
    ensures var (r, after) := Step(h, DoCommit(id, expiry, now));
            if id in h.st.consumed || id in h.st.published then r == Ok(()) && after == h
            else if |h.st.consumed| >= 1024 then r == Err(ResourceExhausted) && after == h
            else
              && r == Ok(())
              && Recorded(h, after, [1] + id + Wire.U64Bytes(expiry),
                          h.st.(consumed := h.st.consumed[id := expiry], order := h.st.order + [id]))
  {
    hide WriteAt;
  }

  // Publishing never fails, and ends the commit.
  lemma PublishRecords(h: Handle, id: GrantId)
    requires h.offset <= |h.file| && Writable(h)
    ensures var (r, after) := Step(h, DoPublish(id));
            && r == Ok(())
            && if id in h.st.published then after == h
               else Recorded(h, after, [2] + id,
                             h.st.(consumed := h.st.consumed - {id}, published := h.st.published + {id}))
  {
    hide WriteAt;
  }

  // A revocation is refused exactly when the key is unknown and 1024 keys are revoked; the first expiry stands.
  lemma RevokeRecords(h: Handle, pk: SigPubkey, expiry: u64)
    requires h.offset <= |h.file| && Writable(h)
    ensures var (r, after) := Step(h, DoRevoke(pk, expiry));
            if pk in h.st.revoked then r == Ok(()) && after == h
            else if |h.st.revoked| >= 1024 then r == Err(ResourceExhausted) && after == h
            else
              && r == Ok(())
              && Recorded(h, after, [3] + pk + Wire.U64Bytes(expiry), h.st.(revoked := h.st.revoked[pk := expiry]))
  {
    hide WriteAt;
  }

  // A first receipt never fails; the first time stands.
  lemma ReceiptRecords(h: Handle, id: GrantId, time: u64)
    requires h.offset <= |h.file| && Writable(h)
    ensures var (r, after) := Step(h, DoReceipt(id, time));
            && r == Ok(())
            && if id in h.st.receipts then after == h
               else Recorded(h, after, [4] + id + Wire.U64Bytes(time), h.st.(receipts := h.st.receipts[id := time]))
  {
    hide WriteAt;
  }

  // A handle that is closed or only for reading records nothing, and says so of everything it would have to.
  lemma NothingRecorded(h: Handle, op: Op)
    requires h.offset <= |h.file| && !Writable(h) && !Rewrites(h.st, op)
    ensures Step(h, op).1 == h
    ensures Logged(h.st, op).Some? ==> Step(h, op).0 == Err(DiskError)
  {
  }

  // ---------- what a run records ----------

  // Call j revokes the key and finds room for it.
  ghost predicate RevokesAt(ops: seq<Op>, j: nat, pk: SigPubkey) {
    && j < |ops| && ops[j].DoRevoke? && ops[j].pubkey == pk
    && |After(ops[..j]).st.revoked| < 1024
  }

  ghost predicate ReceivesAt(ops: seq<Op>, j: nat, id: GrantId) {
    j < |ops| && ops[j].DoReceipt? && ops[j].id == id
  }

  // Call j commits the grant and finds room for it.
  ghost predicate CommitsAt(ops: seq<Op>, j: nat, id: GrantId) {
    && j < |ops| && ops[j].DoCommit? && ops[j].id == id
    && |After(ops[..j]).st.consumed| < 1024
  }

  ghost predicate PublishesAt(ops: seq<Op>, j: nat, id: GrantId) {
    j < |ops| && ops[j].DoPublish? && ops[j].id == id
  }

  lemma NextRevoked(s: State, op: Op)
    ensures Next(s, op).revoked == if op.DoRevoke? && op.pubkey !in s.revoked && |s.revoked| < 1024
                                   then s.revoked[op.pubkey := op.certExpiry] else s.revoked
  {
    match op {
      case DoCommit(_, _, _) =>
      case DoPublish(_) =>
      case DoRevoke(_, _) =>
      case DoReceipt(_, _) =>
    }
  }

  lemma NextReceipts(s: State, op: Op)
    ensures Next(s, op).receipts == if op.DoReceipt? && op.id !in s.receipts
                                    then s.receipts[op.id := op.time] else s.receipts
  {
    if op.DoReceipt? {
      ReceiptState(s, op.id, op.time);
    }
  }

  lemma ReceiptState(s: State, id: GrantId, time: u64)
    ensures Next(s, DoReceipt(id, time))
            == if id in s.receipts then s else s.(receipts := s.receipts[id := time])
  {
  }

  lemma NextPublished(s: State, op: Op)
    ensures Next(s, op).published == if op.DoPublish? then s.published + {op.id} else s.published
  {
    match op {
      case DoCommit(_, _, _) =>
      case DoPublish(_) =>
      case DoRevoke(_, _) =>
      case DoReceipt(_, _) =>
    }
  }

  lemma RevokesBefore(ops: seq<Op>, j: nat, pk: SigPubkey)
    requires j < |ops| - 1
    ensures RevokesAt(ops, j, pk) <==> RevokesAt(ops[..|ops| - 1], j, pk)
  {
    hide After;
    PrefixOfPrefix(ops, j, |ops| - 1);
  }

  // A key is revoked exactly when some call revoked it with room for it.
  lemma {:induction false} RevokedIff(ops: seq<Op>, pk: SigPubkey)
    requires Appending(ops)
    ensures pk in After(ops).st.revoked <==> exists j: nat :: RevokesAt(ops, j, pk)
  {
    hide After, Next;
    if ops == [] {
      StartsEmpty();
    } else {
      var last := |ops| - 1;
      var init := ops[..last];
      RevokedIff(init, pk);
      AfterLast(ops);
      NextRevoked(After(init).st, ops[last]);
      forall j: nat | j < last ensures RevokesAt(ops, j, pk) <==> RevokesAt(init, j, pk) {
        RevokesBefore(ops, j, pk);
      }
      if pk in After(init).st.revoked {
        var j: nat :| RevokesAt(init, j, pk);
        assert RevokesAt(ops, j, pk);
      } else if pk in After(ops).st.revoked {
        assert RevokesAt(ops, last, pk);
      }
    }
  }

  // A first receipt is on record exactly when some call brought one.
  lemma {:induction false} ReceivedIff(ops: seq<Op>, id: GrantId)
    requires Appending(ops)
    ensures id in After(ops).st.receipts <==> exists j: nat :: ReceivesAt(ops, j, id)
  {
    hide After, Next;
    if ops == [] {
      StartsEmpty();
    } else {
      var last := |ops| - 1;
      var init := ops[..last];
      ReceivedIff(init, id);
      AfterLast(ops);
      NextReceipts(After(init).st, ops[last]);
      forall j: nat | j < last ensures ReceivesAt(ops, j, id) <==> ReceivesAt(init, j, id) {
        assert ops[j] == init[j];
      }
      if id in After(init).st.receipts {
        var j: nat :| ReceivesAt(init, j, id);
        assert ReceivesAt(ops, j, id);
      } else if id in After(ops).st.receipts {
        assert ReceivesAt(ops, last, id);
      }
    }
  }

  // A grant is published exactly when some call published it.
  lemma {:induction false} PublishedIff(ops: seq<Op>, id: GrantId)
    requires Appending(ops)
    ensures id in After(ops).st.published <==> exists j: nat :: PublishesAt(ops, j, id)
  {
    hide After, Next;
    if ops == [] {
      StartsEmpty();
    } else {
      var last := |ops| - 1;
      var init := ops[..last];
      PublishedIff(init, id);
      AfterLast(ops);
      NextPublished(After(init).st, ops[last]);
      forall j: nat | j < last ensures PublishesAt(ops, j, id) <==> PublishesAt(init, j, id) {
        assert ops[j] == init[j];
      }
      if id in After(init).st.published {
        var j: nat :| PublishesAt(init, j, id);
        assert PublishesAt(ops, j, id);
      } else if id in After(ops).st.published {
        assert PublishesAt(ops, last, id);
      }
    }
  }

  lemma NextConsumed(s: State, op: Op, id: GrantId)
    requires id in s.consumed ==> id !in s.published
    ensures id in Next(s, op).consumed <==>
              || (op.DoCommit? && op.id == id && |s.consumed| < 1024 && id !in s.published)
              || (id in s.consumed && !(op.DoPublish? && op.id == id))
  {
    if op.DoCommit? {
      CommitMember(s, op.id, op.expiry, op.now, id);
    } else if op.DoPublish? {
      PublishMember(s, op.id, id);
    }
  }

  lemma PublishMember(s: State, i: GrantId, id: GrantId)
    requires id in s.consumed ==> id !in s.published
    ensures id in Next(s, DoPublish(i)).consumed <==> id in s.consumed && i != id
  {
  }

  lemma CommitMember(s: State, i: GrantId, expiry: u64, now: u64, id: GrantId)
    ensures id in Next(s, DoCommit(i, expiry, now)).consumed <==>
              id in s.consumed || (i == id && |s.consumed| < 1024 && id !in s.published)
  {
  }

  lemma TidyApart(s: State, id: GrantId)
    requires Tidy(s)
    ensures id in s.consumed ==> id !in s.published
  {
  }

  lemma CommitsBefore(ops: seq<Op>, j: nat, id: GrantId)
    requires j < |ops| - 1
    ensures CommitsAt(ops, j, id) <==> CommitsAt(ops[..|ops| - 1], j, id)
  {
    hide After;
    PrefixOfPrefix(ops, j, |ops| - 1);
  }

  // A grant is among the live commits exactly when some call committed it with room for it and none published it.
  lemma {:induction false} CommittedIff(ops: seq<Op>, id: GrantId)
    requires Appending(ops)
    ensures id in After(ops).st.consumed <==>
              (exists j: nat :: CommitsAt(ops, j, id)) && forall j: nat :: !PublishesAt(ops, j, id)
  {
    hide After, Next, Tidy;
    if ops == [] {
      StartsEmpty();
    } else {
      var last := |ops| - 1;
      var init := ops[..last];
      CommittedIff(init, id);
      PublishedIff(init, id);
      AfterLast(ops);
      RunsStayTidy(init);
      TidyApart(After(init).st, id);
      NextConsumed(After(init).st, ops[last], id);
      forall j: nat | j < last
        ensures CommitsAt(ops, j, id) <==> CommitsAt(init, j, id)
        ensures PublishesAt(ops, j, id) <==> PublishesAt(init, j, id)
      {
        CommitsBefore(ops, j, id);
      }
      CommitOrEarlier(ops, id);
    }
  }

  // Split off the last call.
  lemma CommitOrEarlier(ops: seq<Op>, id: GrantId)
    requires ops != []
    requires forall j: nat :: j < |ops| - 1 ==>
               && (CommitsAt(ops, j, id) <==> CommitsAt(ops[..|ops| - 1], j, id))
               && (PublishesAt(ops, j, id) <==> PublishesAt(ops[..|ops| - 1], j, id))
    ensures var last := |ops| - 1;
            && ((exists j: nat :: CommitsAt(ops, j, id)) <==>
                  CommitsAt(ops, last, id) || exists j: nat :: CommitsAt(ops[..last], j, id))
            && ((exists j: nat :: PublishesAt(ops, j, id)) <==>
                  PublishesAt(ops, last, id) || exists j: nat :: PublishesAt(ops[..last], j, id))
  {
    hide After;
    var last := |ops| - 1;
    if j: nat :| CommitsAt(ops[..last], j, id) {
      assert CommitsAt(ops, j, id);
    }
    if j: nat :| PublishesAt(ops[..last], j, id) {
      assert PublishesAt(ops, j, id);
    }
    if j: nat :| CommitsAt(ops, j, id) {
      assert j < last ==> CommitsAt(ops[..last], j, id);
    }
    if j: nat :| PublishesAt(ops, j, id) {
      assert j < last ==> PublishesAt(ops[..last], j, id);
    }
  }

  // What stands in memory stands for good: a key under its expiry, a receipt under its time, a publication.
  lemma {:induction false} Stays(ops: seq<Op>, i: nat)
    requires Appending(ops) && i <= |ops|
    ensures Within(After(ops[..i]).st, After(ops).st)
    decreases |ops|
  {
    hide After, Next;
    if i < |ops| {
      var init := ops[..|ops| - 1];
      PrefixOfPrefix(ops, i, |init|);
      Stays(init, i);
      AfterLast(ops);
      NextRevoked(After(init).st, ops[|init|]);
      NextReceipts(After(init).st, ops[|init|]);
      NextPublished(After(init).st, ops[|init|]);
    } else {
      assert ops[..i] == ops;
    }
  }

  ghost predicate Within(s: State, t: State) {
    && (forall pk <- s.revoked.Keys :: pk in t.revoked && t.revoked[pk] == s.revoked[pk])
    && (forall id <- s.receipts.Keys :: id in t.receipts && t.receipts[id] == s.receipts[id])
    && s.published <= t.published
  }

  // The first call that revokes a key with room for it sets the expiry for good.
  lemma FirstRevocationStands(ops: seq<Op>, j: nat, pk: SigPubkey)
    requires Appending(ops) && RevokesAt(ops, j, pk) && forall i: nat :: i < j ==> !RevokesAt(ops, i, pk)
    ensures pk in After(ops).st.revoked && After(ops).st.revoked[pk] == ops[j].certExpiry
  {
    hide After, Next;
    var to := ops[..j + 1];
    AppendingPrefix(ops, j);
    AppendingPrefix(ops, j + 1);
    RevokedIff(ops[..j], pk);
    forall i: nat | i < j ensures !RevokesAt(ops[..j], i, pk) {
      PrefixOfPrefix(ops, i, j);
      assert !RevokesAt(ops, i, pk);
    }
    PrefixOfPrefix(ops, j, j + 1);
    AfterLast(to);
    NextRevoked(After(ops[..j]).st, ops[j]);
    Stays(ops, j + 1);
  }

  // The first receipt of a grant stands for good.
  lemma FirstReceiptStands(ops: seq<Op>, j: nat, id: GrantId)
    requires Appending(ops) && ReceivesAt(ops, j, id) && forall i: nat :: i < j ==> !ReceivesAt(ops, i, id)
    ensures id in After(ops).st.receipts && After(ops).st.receipts[id] == ops[j].time
  {
    hide After, Next;
    var to := ops[..j + 1];
    AppendingPrefix(ops, j);
    AppendingPrefix(ops, j + 1);
    ReceivedIff(ops[..j], id);
    forall i: nat | i < j ensures !ReceivesAt(ops[..j], i, id) {
      assert ops[..j][i] == ops[i] && !ReceivesAt(ops, i, id);
    }
    PrefixOfPrefix(ops, j, j + 1);
    AfterLast(to);
    NextReceipts(After(ops[..j]).st, ops[j]);
    Stays(ops, j + 1);
  }

  // ---------- orphans come in the order of their commits ----------

  // Some call commits x before any commits y.
  ghost predicate CommittedBefore(ops: seq<Op>, x: GrantId, y: GrantId) {
    exists p: nat :: CommitsAt(ops, p, x) && forall q: nat :: CommitsAt(ops, q, y) ==> p < q
  }

  lemma OrderNext(s: State, op: Op)
    ensures Next(s, op).order
            == if op.DoCommit? && op.id !in s.consumed && op.id !in s.published && |s.consumed| < 1024
               then s.order + [op.id] else s.order
  {
    match op {
      case DoCommit(_, _, _) =>
      case DoPublish(_) =>
      case DoRevoke(_, _) =>
      case DoReceipt(_, _) =>
    }
  }

  lemma {:induction false} QueuedWasCommitted(ops: seq<Op>, x: GrantId)
    requires Appending(ops) && x in After(ops).st.order
    ensures exists p: nat :: CommitsAt(ops, p, x)
  {
    hide After, Next;
    if ops == [] {
      StartsEmpty();
    } else {
      var last := |ops| - 1;
      var init := ops[..last];
      AfterLast(ops);
      OrderNext(After(init).st, ops[last]);
      if x in After(init).st.order {
        QueuedWasCommitted(init, x);
        var p: nat :| CommitsAt(init, p, x);
        CommitsBefore(ops, p, x);
      } else {
        assert CommitsAt(ops, last, x);
      }
    }
  }

  lemma StillBefore(ops: seq<Op>, x: GrantId, y: GrantId)
    requires ops != [] && CommittedBefore(ops[..|ops| - 1], x, y)
    ensures CommittedBefore(ops, x, y)
  {
    hide After;
    var init := ops[..|ops| - 1];
    var p: nat :| CommitsAt(init, p, x) && forall q: nat :: CommitsAt(init, q, y) ==> p < q;
    CommitsBefore(ops, p, x);
    forall q: nat | CommitsAt(ops, q, y) ensures p < q {
      if q < |init| {
        CommitsBefore(ops, q, y);
      }
    }
  }

  // A grant that joins the queue has not been committed before.
  lemma NewcomerLast(ops: seq<Op>, x: GrantId, y: GrantId)
    requires ops != [] && Appending(ops)
    requires var s := After(ops[..|ops| - 1]).st; x in s.order && y !in s.consumed && y !in s.published
    ensures CommittedBefore(ops, x, y)
  {
    hide After;
    var init := ops[..|ops| - 1];
    QueuedWasCommitted(init, x);
    CommittedIff(init, y);
    PublishedIff(init, y);
    var p: nat :| CommitsAt(init, p, x);
    CommitsBefore(ops, p, x);
    forall q: nat | CommitsAt(ops, q, y) ensures p < q {
      if q < |init| {
        CommitsBefore(ops, q, y);
      }
    }
  }

  // The queue lists the grants in the order they were first committed.
  lemma {:induction false} QueueInOrder(ops: seq<Op>, a: nat, b: nat)
    requires Appending(ops) && a < b < |After(ops).st.order|
    ensures CommittedBefore(ops, After(ops).st.order[a], After(ops).st.order[b])
  {
    hide After, Next, CommittedBefore;
    if ops == [] {
      StartsEmpty();
    } else {
      var init := ops[..|ops| - 1];
      AfterLast(ops);
      OrderNext(After(init).st, ops[|init|]);
      var order := After(init).st.order;
      if b < |order| {
        QueueInOrder(init, a, b);
        StillBefore(ops, order[a], order[b]);
      } else {
        NewcomerLast(ops, order[a], ops[|init|].id);
      }
    }
  }

  lemma {:induction false} KeptInOrder(order: seq<GrantId>, live: map<GrantId, u64>, i: nat, j: nat)
    returns (a: nat, b: nat)
    requires i < j < |Kept(order, live)|
    ensures a < b < |order| && order[a] == Kept(order, live)[i] && order[b] == Kept(order, live)[j]
  {
    if order[0] !in live {
      var c, d := KeptInOrder(order[1..], live, i, j);
      a, b := c + 1, d + 1;
    } else if i == 0 {
      var x := Kept(order[1..], live)[j - 1];
      assert x in order[1..];
      var d :| 0 <= d < |order[1..]| && order[1..][d] == x;
      a, b := 0, d + 1;
    } else {
      var c, d := KeptInOrder(order[1..], live, i - 1, j - 1);
      a, b := c + 1, d + 1;
    }
  }

  // After a crash at any byte the orphans come in the order they were first committed.
  lemma OrphansInOrder(ops: seq<Op>, n: nat, i: nat, j: nat) returns (m: nat)
    requires Appending(ops) && n <= |After(ops).file|
    requires i < j < |Orphans(Replayed(After(ops).file[..n]))|
    ensures m <= |ops| && Replayed(After(ops).file[..n]) == After(ops[..m]).st
    ensures var orphans := Orphans(Replayed(After(ops).file[..n])); CommittedBefore(ops[..m], orphans[i], orphans[j])
  {
    hide After, Appending, Replayed, CommittedBefore;
    m := CrashConsistent(ops, n);
    AppendingPrefix(ops, m);
    var s := After(ops[..m]).st;
    var a, b := KeptInOrder(s.order, s.consumed, i, j);
    QueueInOrder(ops[..m], a, b);
  }

  // ---------- what a cut of the log keeps ----------

  lemma {:induction false} FileGrows(ops: seq<Op>, i: nat)
    requires Appending(ops) && i <= |ops|
    ensures |After(ops[..i]).file| <= |After(ops).file|
    decreases |ops|
  {
    if i < |ops| {
      var init := ops[..|ops| - 1];
      assert init[..i] == ops[..i];
      FileGrows(init, i);
      FileIsLog(init);
      FileIsLog(ops);
      LogGrows(ops);
      hide After, LogOf;
    } else {
      assert ops[..i] == ops;
    }
  }

  lemma LogGrows(ops: seq<Op>)
    requires ops != []
    ensures |EncodeAll(LogOf(ops[..|ops| - 1]))| <= |EncodeAll(LogOf(ops))|
  {
    hide After, EncodeAll;
    var init := ops[..|ops| - 1];
    match Logged(After(init).st, ops[|ops| - 1])
    case Some(r) => EncodeAllAppend(LogOf(init), r);
    case None =>
  }

  // A cut that leaves the file as long as it was after some calls recovers the state after those calls or later ones.
  lemma CutKeeps(ops: seq<Op>, i: nat, n: nat) returns (m: nat)
    requires Appending(ops) && i <= |ops|
    requires |After(ops[..i]).file| <= n <= |After(ops).file|
    ensures i <= m <= |ops| && Appending(ops[..m])
    ensures Replayed(After(ops).file[..n]) == After(ops[..m]).st
  {
    hide After, Appending, Replayed;
    m := CrashConsistent(ops, n);
    AppendingPrefix(ops, m);
    AppendingPrefix(ops, i);
    if m < i {
      PrefixOfPrefix(ops, m + 1, i);
      FileGrows(ops[..i], m + 1);
    }
  }

  // What the calls up to j recorded survives every cut that keeps their records: revocations, first receipts and
  // publications, each with what stands for it in memory.
  lemma RecordsSurviveCut(ops: seq<Op>, j: nat, n: nat)
    requires Appending(ops) && j <= |ops|
    requires |After(ops[..j]).file| <= n <= |After(ops).file|
    ensures var recovered := Replayed(After(ops).file[..n]);
            Within(After(ops[..j]).st, recovered) && Within(recovered, After(ops).st)
  {
    hide After, Appending, Replayed, Within;
    var m := CutKeeps(ops, j, n);
    PrefixOfPrefix(ops, j, m);
    Stays(ops[..m], j);
    Stays(ops, m);
  }

  // So a key revoked with room stays revoked, across every cut that keeps the record.
  lemma RevocationSurvivesCut(ops: seq<Op>, j: nat, pk: SigPubkey, n: nat)
    requires Appending(ops) && RevokesAt(ops, j, pk)
    requires |After(ops[..j + 1]).file| <= n <= |After(ops).file|
    ensures var recovered, memory := Replayed(After(ops).file[..n]).revoked, After(ops).st.revoked;
            pk in recovered && pk in memory && recovered[pk] == memory[pk]
  {
    hide After, Appending, Replayed;
    PrefixOfPrefix(ops, j, j + 1);
    AppendingPrefix(ops, j + 1);
    RevokedIff(ops[..j + 1], pk);
    assert RevokesAt(ops[..j + 1], j, pk);
    RecordsSurviveCut(ops, j + 1, n);
  }

  // And so does a first receipt.
  lemma ReceiptSurvivesCut(ops: seq<Op>, j: nat, id: GrantId, n: nat)
    requires Appending(ops) && ReceivesAt(ops, j, id)
    requires |After(ops[..j + 1]).file| <= n <= |After(ops).file|
    ensures var recovered, memory := Replayed(After(ops).file[..n]).receipts, After(ops).st.receipts;
            id in recovered && id in memory && recovered[id] == memory[id]
  {
    hide After, Appending, Replayed;
    AppendingPrefix(ops, j + 1);
    ReceivedIff(ops[..j + 1], id);
    assert ReceivesAt(ops[..j + 1], j, id);
    RecordsSurviveCut(ops, j + 1, n);
  }
}
