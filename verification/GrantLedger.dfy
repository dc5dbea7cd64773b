/** The durable two-phase grant ledger over the log: commit, publish, revoke, first receipt,
    recovery and pruning, and its crash consistency. */
module GrantLedger {
  import opened Base
  import opened Collections
  import opened GrantLog

  const MAX_LIVE := 1024

  datatype LedgerError = BadLog | ResourceExhausted | DiskError
  datatype Recovery = Recovery(orphans: seq<GrantId>, consumedCount: nat, revokedCount: nat)

  // A ledger handle: the file, the write position in it, and what is remembered.
  datatype Handle = Handle(file: bytes, offset: nat, isOpen: bool, readOnly: bool, st: State)

  ghost const NEW: Handle := Handle([], 0, true, false, EMPTY)

  // Writing at a position overwrites what is there.
  function WriteAt(file: bytes, offset: nat, rec: bytes): bytes
    requires offset <= |file|
  {
    file[..offset] + rec + (if offset + |rec| <= |file| then file[offset + |rec|..] else [])
  }

  // A write extends the file, losing nothing, exactly at its end.
  lemma WriteExtendsIffAtEnd(file: bytes, offset: nat, rec: bytes)
    requires offset <= |file| && rec != []
    ensures WriteAt(file, offset, rec) == file + rec <==> offset == |file|
  {
    if offset < |file| {
      assert |WriteAt(file, offset, rec)| < |file + rec|;
    }
  }

  // ---------- pruning ----------

  predicate Expired(s: State, now: u64) {
    exists id <- s.consumed.Keys :: s.consumed[id] <= now
  }

  function Prune(s: State, now: u64): State {
    if !Expired(s, now) then s else
    var live := map id <- s.consumed.Keys | s.consumed[id] > now :: s.consumed[id];
    s.(consumed := live, order := Kept(s.order, live))
  }

  // Pruning keeps exactly the commits that expire later, each under its expiry, in their order, and all the rest.
  lemma PruneKeeps(s: State, now: u64)
    ensures var kept := Prune(s, now);
            && (forall id :: id in kept.consumed <==> id in s.consumed && s.consumed[id] > now)
            && (forall id <- kept.consumed.Keys :: kept.consumed[id] == s.consumed[id])
            && kept.published == s.published && kept.revoked == s.revoked && kept.receipts == s.receipts
  {
  }

  // The entries of a map, each once, in some order.
  ghost predicate Enumerates<K(!new), V(!new)>(m: map<K, V>, s: seq<(K, V)>) {
    && (forall i, j :: 0 <= i < j < |s| ==> s[i].0 != s[j].0)
    && (forall p <- s :: p.0 in m && m[p.0] == p.1)
    && (forall k <- m.Keys :: (k, m[k]) in s)
  }

  function Commits(s: seq<(GrantId, u64)>): seq<Record> {
    seq(|s|, i requires 0 <= i < |s| => Commit(s[i].0, s[i].1))
  }

  function Revokes(s: seq<(SigPubkey, u64)>): seq<Record> {
    seq(|s|, i requires 0 <= i < |s| => Revoke(s[i].0, s[i].1))
  }

  function Receipts(s: seq<(GrantId, u64)>): seq<Record> {
    seq(|s|, i requires 0 <= i < |s| => FirstReceipt(s[i].0, s[i].1))
  }

  function Ids(s: seq<(GrantId, u64)>): seq<GrantId> {
    seq(|s|, i requires 0 <= i < |s| => s[i].0)
  }

  // The entries of the state: live commits, revocations, anchors.
  ghost predicate Lists(s: State, cs: seq<(GrantId, u64)>, rs: seq<(SigPubkey, u64)>, fs: seq<(GrantId, u64)>) {
    Enumerates(s.consumed, cs) && Enumerates(s.revoked, rs) && Enumerates(s.receipts, fs)
  }

  function Image(cs: seq<(GrantId, u64)>, rs: seq<(SigPubkey, u64)>, fs: seq<(GrantId, u64)>): bytes {
    EncodeAll(Commits(cs) + Revokes(rs) + Receipts(fs))
  }

  // A canonical image of the state: its entries in some order.
  ghost predicate ImageOf(s: State, image: bytes) {
    exists cs, rs, fs :: Lists(s, cs, rs, fs) && image == Image(cs, rs, fs)
  }

  ghost function MapOf<K(!new), V(!new)>(s: seq<(K, V)>): map<K, V> {
    if s == [] then map[] else MapOf(s[..|s| - 1])[s[|s| - 1].0 := s[|s| - 1].1]
  }

  lemma {:induction false} MapOfFrom<K(!new), V(!new)>(s: seq<(K, V)>, k: K)
    requires k in MapOf(s)
    ensures (k, MapOf(s)[k]) in s
  {
    var init, last := s[..|s| - 1], s[|s| - 1];
    if k != last.0 {
      MapOfFrom(init, k);
      var i :| 0 <= i < |init| && init[i] == (k, MapOf(init)[k]);
      assert s[i] == init[i];
    }
  }

  lemma {:induction false} MapOfHas<K(!new), V(!new)>(s: seq<(K, V)>, i: nat)
    requires forall i, j :: 0 <= i < j < |s| ==> s[i].0 != s[j].0
    requires i < |s|
    ensures s[i].0 in MapOf(s) && MapOf(s)[s[i].0] == s[i].1
  {
    if i < |s| - 1 {
      MapOfHas(s[..|s| - 1], i);
    }
  }

  lemma LastKeyNew<K(!new), V(!new)>(s: seq<(K, V)>)
    requires s != [] && forall i, j :: 0 <= i < j < |s| ==> s[i].0 != s[j].0
    ensures s[|s| - 1].0 !in MapOf(s[..|s| - 1])
  {
    var init, k := s[..|s| - 1], s[|s| - 1].0;
    if k in MapOf(init) {
      MapOfFrom(init, k);
    }
  }

  lemma EnumeratesMapOf<K(!new), V(!new)>(m: map<K, V>, s: seq<(K, V)>)
    requires Enumerates(m, s)
    ensures MapOf(s) == m
  {
    hide MapOf;
    forall k | k in m ensures k in MapOf(s) && MapOf(s)[k] == m[k] {
      assert (k, m[k]) in s;
      var i :| 0 <= i < |s| && s[i] == (k, m[k]);
      MapOfHas(s, i);
    }
    forall k | k in MapOf(s) ensures k in m {
      MapOfFrom(s, k);
    }
  }

  lemma {:induction false} ReplayCommits(cs: seq<(GrantId, u64)>)
    requires forall i, j :: 0 <= i < j < |cs| ==> cs[i].0 != cs[j].0
    ensures ApplyAll(EMPTY, Commits(cs)) == State(MapOf(cs), Ids(cs), {}, map[], map[])
  {
    hide ApplyAll;
    if cs == [] {
      NothingApplied(EMPTY);
      assert Commits(cs) == [];
    } else {
      var init, last := cs[..|cs| - 1], cs[|cs| - 1];
      ReplayCommits(init);
      assert Commits(cs) == Commits(init) + [Commit(last.0, last.1)];
      ApplyAppended(EMPTY, Commits(init), Commit(last.0, last.1));
      LastKeyNew(cs);
      assert Ids(cs) == Ids(init) + [last.0];
    }
  }

  lemma NothingApplied(s: State)
    ensures ApplyAll(s, []) == s
  {
  }

  lemma {:induction false} ReplayRevokes(s: State, rs: seq<(SigPubkey, u64)>)
    requires s.revoked == map[]
    ensures ApplyAll(s, Revokes(rs)) == s.(revoked := MapOf(rs))
  {
    if rs != [] {
      var init, last := rs[..|rs| - 1], rs[|rs| - 1];
      ReplayRevokes(s, init);
      assert Revokes(rs) == Revokes(init) + [Revoke(last.0, last.1)];
      ApplyAppended(s, Revokes(init), Revoke(last.0, last.1));
    }
  }

  lemma {:induction false} ReplayReceipts(s: State, fs: seq<(GrantId, u64)>)
    requires s.receipts == map[]
    requires forall i, j :: 0 <= i < j < |fs| ==> fs[i].0 != fs[j].0
    ensures ApplyAll(s, Receipts(fs)) == s.(receipts := MapOf(fs))
  {
    if fs != [] {
      var init, last := fs[..|fs| - 1], fs[|fs| - 1];
      ReplayReceipts(s, init);
      assert Receipts(fs) == Receipts(init) + [FirstReceipt(last.0, last.1)];
      ApplyAppended(s, Receipts(init), FirstReceipt(last.0, last.1));
      LastKeyNew(fs);
    }
  }

  // The image recovers to exactly the surviving commits, all revocations and all anchors,
  // with every survivor an orphan and no grant remembered as published.
  lemma ImageRecovers(s: State, image: bytes)
    requires ImageOf(s, image)
    ensures !Corrupt(image)
    ensures exists order ::
              && Replayed(image) == State(s.consumed, order, {}, s.revoked, s.receipts)
              && Distinct(order) && (forall id :: id in order <==> id in s.consumed)
  {
    var cs, rs, fs :| Lists(s, cs, rs, fs) && image == Image(cs, rs, fs);
    hide Enumerates, MapOf, ApplyAll, Records, Corrupt, EncodeAll;
    var recs := Commits(cs) + Revokes(rs) + Receipts(fs);
    NothingLeft();
    RecordsOfLog(recs, []);
    assert image + [] == image && recs + [] == recs;
    EnumeratesMapOf(s.consumed, cs);
    EnumeratesMapOf(s.revoked, rs);
    EnumeratesMapOf(s.receipts, fs);
    ReplayCommits(cs);
    ApplyAllSplit(EMPTY, Commits(cs) + Revokes(rs), Receipts(fs));
    ApplyAllSplit(EMPTY, Commits(cs), Revokes(rs));
    ReplayRevokes(ApplyAll(EMPTY, Commits(cs)), rs);
    ReplayReceipts(ApplyAll(EMPTY, Commits(cs) + Revokes(rs)), fs);
    IdsOf(s.consumed, cs);
  }

  lemma NothingLeft()
    ensures Records([]) == [] && !Corrupt([])
  {
  }

  lemma IdsOf(m: map<GrantId, u64>, cs: seq<(GrantId, u64)>)
    requires Enumerates(m, cs)
    ensures Distinct(Ids(cs))
    ensures forall id :: id in Ids(cs) <==> id in m
  {
    forall id | id in m ensures id in Ids(cs) {
      var i :| 0 <= i < |cs| && cs[i] == (id, m[id]);
      assert Ids(cs)[i] == id;
    }
    forall id | id in Ids(cs) ensures id in m {
      var i :| 0 <= i < |cs| && Ids(cs)[i] == id;
      assert cs[i] in cs;
    }
  }

  // ---------- what each call does ----------

  datatype Op =
    | DoCommit(id: GrantId, expiry: u64, now: u64)
    | DoPublish(id: GrantId)
    | DoRevoke(pubkey: SigPubkey, certExpiry: u64)
    | DoReceipt(id: GrantId, time: u64)

  // The call prunes, and the pruning rewrites the file.
  predicate Rewrites(s: State, op: Op) {
    && op.DoCommit?
    && op.id !in s.consumed && op.id !in s.published
    && |s.consumed| >= MAX_LIVE && Expired(s, op.now)
  }

  // Committing a known id is a no-op; a full table is pruned first.
  function CommitState(s: State, id: GrantId, expiry: u64, now: u64): (Result<(), LedgerError>, State) {
    if id in s.consumed || id in s.published then (Ok(()), s) else
    var s1 := if |s.consumed| >= MAX_LIVE then Prune(s, now) else s;
    if |s1.consumed| >= MAX_LIVE then (Err(ResourceExhausted), s1)
    else (Ok(()), Apply(s1, Commit(id, expiry)))
  }

  // The call prunes first, and then has room.
  ghost predicate RewritesAndCommits(s: State, id: GrantId, expiry: u64, now: u64) {
    Rewrites(s, DoCommit(id, expiry, now)) && |Prune(s, now).consumed| < MAX_LIVE
  }

  // The file such a call leaves: the new record at the start of an image of what survived.
  ghost predicate LeftBy(s: State, id: GrantId, expiry: u64, now: u64, file: bytes) {
    exists image :: ImageOf(Prune(s, now), image) && file == WriteAt(image, 0, Encode(Commit(id, expiry)))
  }

  // The record a call appends, if any.
  function Logged(s: State, op: Op): Option<Record> {
    match op
    case DoCommit(id, expiry, now) =>
      if id in s.consumed || id in s.published || |s.consumed| >= MAX_LIVE then None
      else Some(Commit(id, expiry))
    case DoPublish(id) =>
      if id in s.published then None else Some(Published(id))
    case DoRevoke(pk, expiry) =>
      if pk in s.revoked || |s.revoked| >= MAX_LIVE then None else Some(Revoke(pk, expiry))
    case DoReceipt(id, time) =>
      if id in s.receipts then None else Some(FirstReceipt(id, time))
  }

  function Append(h: Handle, r: Record): (Result<(), LedgerError>, Handle)
    requires h.offset <= |h.file|
  {
    if h.readOnly || !h.isOpen then (Err(DiskError), h)
    else (Ok(()), h.(file := WriteAt(h.file, h.offset, Encode(r)),
                     offset := h.offset + |Encode(r)|,
                     st := Apply(h.st, r)))
  }

  // One call that does not rewrite the file.
  function Step(h: Handle, op: Op): (Result<(), LedgerError>, Handle)
    requires h.offset <= |h.file| && !Rewrites(h.st, op)
  {
    match Logged(h.st, op)
    case Some(r) => Append(h, r)
    case None =>
      ((if op.DoCommit? && op.id !in h.st.consumed && op.id !in h.st.published then
          Err(if h.readOnly then DiskError else ResourceExhausted)
        else if op.DoRevoke? && op.pubkey !in h.st.revoked then Err(ResourceExhausted)
        else Ok(())), h)
  }

  // ---------- runs from an empty file ----------

  // No call of the run rewrites the file.
  ghost predicate Appending(ops: seq<Op>) {
    ops == [] || (Appending(ops[..|ops| - 1]) && !Rewrites(After(ops[..|ops| - 1]).st, ops[|ops| - 1]))
  }

  ghost function After(ops: seq<Op>): (h: Handle)
    ensures h.offset <= |h.file|
  {
    if ops == [] then NEW
    else
      var h, op := After(ops[..|ops| - 1]), ops[|ops| - 1];
      if Rewrites(h.st, op) then h else Step(h, op).1
  }

  ghost function LogOf(ops: seq<Op>): seq<Record> {
    if ops == [] then []
    else
      var init := ops[..|ops| - 1];
      match Logged(After(init).st, ops[|ops| - 1])
      case Some(r) => LogOf(init) + [r]
      case None => LogOf(init)
  }

  // The file is the log of the calls, and memory is what replaying it gives.
  lemma {:induction false} FileIsLog(ops: seq<Op>)
    requires Appending(ops)
    ensures After(ops) == Handle(EncodeAll(LogOf(ops)), |EncodeAll(LogOf(ops))|, true, false,
                                 ApplyAll(EMPTY, LogOf(ops)))
  {
    if ops != [] {
      var init, op := ops[..|ops| - 1], ops[|ops| - 1];
      FileIsLog(init);
      match Logged(After(init).st, op)
      case Some(r) =>
        EncodeAllAppend(LogOf(init), r);
        ApplyAppended(EMPTY, LogOf(init), r);
        WriteExtendsIffAtEnd(After(init).file, After(init).offset, Encode(r));
      case None =>
    }
  }

  lemma {:induction false} CallsLogging(ops: seq<Op>, k: nat) returns (m: nat)
    requires Appending(ops) && k <= |LogOf(ops)|
    ensures m <= |ops| && Appending(ops[..m]) && LogOf(ops[..m]) == LogOf(ops)[..k]
    ensures m < |ops| ==> Appending(ops[..m + 1]) && k < |LogOf(ops)| && LogOf(ops[..m + 1]) == LogOf(ops)[..k + 1]
  {
    hide After, Logged, Rewrites;
    if k == |LogOf(ops)| {
      m := |ops|;
      assert ops[..m] == ops && LogOf(ops)[..k] == LogOf(ops);
    } else {
      var init := ops[..|ops| - 1];
      m := CallsLogging(init, k);
      assert init[..m] == ops[..m];
      if m < |init| {
        assert init[..m + 1] == ops[..m + 1];
      } else {
        assert init[..m] == init && ops[..m + 1] == ops;
        assert LogOf(init) == LogOf(init)[..k];
        assert LogOf(ops)[..k + 1] == LogOf(ops);
      }
    }
  }

  // Crash consistency: cut the file at any byte, and recovery succeeds with exactly the state,
  // orphans included, after the calls whose records are whole.
  lemma CrashConsistent(ops: seq<Op>, n: nat) returns (m: nat)
    requires Appending(ops) && n <= |After(ops).file|
    ensures m <= |ops| && |After(ops[..m]).file| <= n
    ensures m < |ops| ==> n < |After(ops[..m + 1]).file|
    ensures !Corrupt(After(ops).file[..n])
    ensures Replayed(After(ops).file[..n]) == After(ops[..m]).st
  {
    hide After, LogOf, Appending, EncodeAll, WholeIn;
    FileIsLog(ops);
    var rs := LogOf(ops);
    CutLog(rs, n);
    m := CallsLogging(ops, WholeIn(rs, n));
    FileIsLog(ops[..m]);
    if m < |ops| {
      FileIsLog(ops[..m + 1]);
    }
  }

  // ---------- orphans ----------

  // Commits queue once; the queue holds the live commits and some published ones.
  ghost predicate Tidy(s: State) {
    && Distinct(s.order)
    && (forall id <- s.consumed.Keys :: id in s.order && id !in s.published)
    && (forall id <- s.order :: id in s.consumed || id in s.published)
  }

  lemma {:induction false} RunsStayTidy(ops: seq<Op>)
    requires Appending(ops)
    ensures Tidy(After(ops).st)
  {
    hide After, Apply, Logged;
    if ops == [] {
      StartsEmpty();
    } else {
      RunsStayTidy(ops[..|ops| - 1]);
      AfterLast(ops);
      TidyStep(After(ops[..|ops| - 1]).st, ops[|ops| - 1]);
    }
  }

  lemma StartsEmpty()
    ensures After([]) == NEW
  {
  }

  // The state a call leaves: its record applied, or nothing.
  ghost function Next(s: State, op: Op): State {
    match Logged(s, op)
    case Some(r) => Apply(s, r)
    case None => s
  }

  lemma AfterLast(ops: seq<Op>)
    requires ops != [] && Appending(ops)
    ensures After(ops).st == Next(After(ops[..|ops| - 1]).st, ops[|ops| - 1])
  {
    FileIsLog(ops[..|ops| - 1]);
  }

  lemma TidyStep(s: State, op: Op)
    requires Tidy(s)
    ensures Tidy(Next(s, op))
  {
  }

  lemma {:induction false} KeptDistinct(order: seq<GrantId>, live: map<GrantId, u64>)
    requires Distinct(order)
    ensures Distinct(Kept(order, live))
  {
    if order != [] {
      KeptDistinct(order[1..], live);
    }
  }

  // After a crash at any byte the orphans are the committed, unpublished grants of the calls that
  // made it to disk, each exactly once.
  lemma OrphansAfterCrash(ops: seq<Op>, n: nat) returns (m: nat)
    requires Appending(ops) && n <= |After(ops).file|
    ensures m <= |ops| && Replayed(After(ops).file[..n]) == After(ops[..m]).st
    ensures var orphans := Orphans(Replayed(After(ops).file[..n]));
            Distinct(orphans) && forall id :: id in orphans <==> id in After(ops[..m]).st.consumed
  {
    m := CrashConsistent(ops, n);
    AppendingPrefix(ops, m);
    RunsStayTidy(ops[..m]);
    var s := After(ops[..m]).st;
    KeptDistinct(s.order, s.consumed);
  }

  lemma {:induction false} AppendingPrefix(ops: seq<Op>, m: nat)
    requires Appending(ops) && m <= |ops|
    ensures Appending(ops[..m])
  {
    if m < |ops| {
      AppendingPrefix(ops[..|ops| - 1], m);
      assert ops[..|ops| - 1][..m] == ops[..m];
    } else {
      assert ops[..m] == ops;
    }
  }

  // Publishing is final: no later call brings the grant back.
  lemma {:induction false} PublishedForGood(ops: seq<Op>, i: nat, id: GrantId)
    requires Appending(ops) && i <= |ops| && id in After(ops[..i]).st.published
    ensures id in After(ops).st.published && id !in After(ops).st.consumed
  {
    hide After;
    if i < |ops| {
      var init := ops[..|ops| - 1];
      assert init[..i] == ops[..i];
      PublishedForGood(init, i, id);
      AfterLast(ops);
    } else {
      assert ops[..i] == ops;
      RunsStayTidy(ops);
    }
  }

  // ---------- the ledger object ----------

  // Replay goes on with the first record of what is left, or stops there.
  lemma ReadOn(s: State, rest: bytes)
    ensures rest == [] ==> ApplyAll(s, Records(rest)) == s && !Corrupt(rest)
    ensures rest != [] ==>
              match RecordLen(rest[0])
              case None => ApplyAll(s, Records(rest)) == s && Corrupt(rest)
              case Some(need) =>
                if |rest| < need then ApplyAll(s, Records(rest)) == s && !Corrupt(rest)
                else
                  && ApplyAll(s, Records(rest)) == ApplyAll(Apply(s, Decode(rest[..need])), Records(rest[need..]))
                  && Corrupt(rest) == Corrupt(rest[need..])
  {
    hide Apply, Decode;
    if rest != [] && RecordLen(rest[0]).Some? && |rest| >= RecordLen(rest[0]).value {
      assert Records(rest)[1..] == Records(rest[RecordLen(rest[0]).value..]);
    }
  }

  class GrantLedger {
    var file: bytes
    var offset: nat
    var isOpen: bool
    var readOnly: bool
    var consumed: map<GrantId, u64>
    var consumedOrder: seq<GrantId>
    var published: set<GrantId>
    var revoked: map<SigPubkey, u64>
    var firstReceipts: map<GrantId, u64>

    ghost predicate Valid()
      reads this
    {
      offset <= |file|
    }

    function St(): State
      reads `consumed, `consumedOrder, `published, `revoked, `firstReceipts
    {
      State(consumed, consumedOrder, published, revoked, firstReceipts)
    }

    function Val(): Handle
      reads this
    {
      Handle(file, offset, isOpen, readOnly, St())
    }

    // Opening does not replay: the position is at the start and nothing is remembered.
    constructor Open(contents: bytes, asReadOnly: bool)
      ensures Valid() && Val() == Handle(contents, 0, true, asReadOnly, EMPTY)
    {
      file, offset, isOpen, readOnly := contents, 0, true, asReadOnly;
      consumed, consumedOrder, published, revoked, firstReceipts := map[], [], {}, map[], map[];
    }

    method Close()
      requires Valid()
      modifies `isOpen
      ensures Valid() && Val() == old(Val()).(isOpen := false)
    {
      isOpen := false;
    }

    method Replay(rec: bytes)
      requires |rec| > 0 && RecordLen(rec[0]) == Some(|rec|)
      modifies `consumed, `consumedOrder, `published, `revoked, `firstReceipts
      ensures St() == Apply(old(St()), Decode(rec))
    {
      if rec[0] == TAG_COMMIT {
        var id: GrantId := rec[1..17];
        var expiry := Wire.U64Of(rec[17..]);
        if id !in published && id !in consumed {
          consumedOrder := consumedOrder + [id];
        }
        consumed := consumed[id := expiry];
      } else if rec[0] == TAG_PUBLISHED {
        var id: GrantId := rec[1..];
        consumed := Forget(consumed, id);
        published := published + {id};
      } else if rec[0] == TAG_REVOKE {
        var pk: SigPubkey := rec[1..33];
        revoked := revoked[pk := Wire.U64Of(rec[33..])];
      } else {
        var id: GrantId := rec[1..17];
        if id !in firstReceipts {
          firstReceipts := firstReceipts[id := Wire.U64Of(rec[17..])];
        }
      }
    }

    // Rebuild memory from the file. A torn last record is ignored, an unknown tag is an error.
    method Recover() returns (r: Result<Recovery, LedgerError>)
      requires Valid()
      modifies this
      ensures Valid() && file == old(file) && isOpen == old(isOpen) && readOnly == old(readOnly)
      ensures !old(isOpen) ==> r == Err(DiskError) && Val() == old(Val())
      ensures old(isOpen) ==>
                && offset == |file| && St() == Replayed(file)
                && r == if Corrupt(file) then Err(BadLog)
                        else Ok(Recovery(Orphans(St()), |consumed|, |revoked|))
    {
      hide Apply, ApplyAll, Decode, Records, Corrupt, Kept;
      if !isOpen {
        return Err(DiskError);
      }
      var buf := file;
      offset := |file|;
      consumed, consumedOrder, published, revoked, firstReceipts := map[], [], {}, map[], map[];
      var off := 0;
      assert buf[0..] == buf;
      while off < |buf|
        invariant off <= |buf| && file == buf && offset == |buf|
        invariant isOpen && readOnly == old(readOnly)
        invariant ApplyAll(St(), Records(buf[off..])) == Replayed(buf)
        invariant Corrupt(buf[off..]) == Corrupt(buf)
      {
        ReadOn(St(), buf[off..]);
        assert buf[off..][0] == buf[off];
        var need := RecordLen(buf[off]);
        if need.None? {
          return Err(BadLog);
        }
        if |buf| - off < need.value {
          return Ok(Recovery(Orphans(St()), |consumed|, |revoked|));
        }
        var rec := buf[off..off + need.value];
        assert buf[off..][..need.value] == rec && buf[off..][need.value..] == buf[off + need.value..];
        Replay(rec);
        off := off + need.value;
      }
      ReadOn(St(), buf[off..]);
      return Ok(Recovery(Orphans(St()), |consumed|, |revoked|));
    }

    // Write and sync one record.
    method AppendBytes(rec: bytes) returns (r: Result<(), LedgerError>)
      requires Valid()
      modifies `file, `offset
      ensures Valid()
      ensures if readOnly || !isOpen then r == Err(DiskError) && Val() == old(Val())
              else r == Ok(()) && Val() == old(Val()).(file := WriteAt(old(file), old(offset), rec),
                                                       offset := old(offset) + |rec|)
    {
      if readOnly || !isOpen {
        return Err(DiskError);
      }
      file := WriteAt(file, offset, rec);
      offset := offset + |rec|;
      return Ok(());
    }

    // The memory side of publishing.
    method NotePublished(id: GrantId)
      modifies `consumed, `published
      ensures Val() == old(Val()).(st := Apply(old(St()), Published(id)))
    {
      consumed := Forget(consumed, id);
      published := published + {id};
    }

    method MarkPublished(id: GrantId) returns (r: Result<(), LedgerError>)
      requires Valid()
      modifies this
      ensures Valid() && (r, Val()) == Step(old(Val()), DoPublish(id))
    {
      hide Apply, WriteAt;
      if id in published {
        return Ok(());
      }
      var _ :- AppendBytes([TAG_PUBLISHED] + id);
      NotePublished(id);
      return Ok(());
    }

    method CommitRevocation(pk: SigPubkey, certExpiry: u64) returns (r: Result<(), LedgerError>)
      requires Valid()
      modifies this
      ensures Valid() && (r, Val()) == Step(old(Val()), DoRevoke(pk, certExpiry))
    {
      if pk in revoked {
        return Ok(());
      }
      if |revoked| >= MAX_LIVE {
        return Err(ResourceExhausted);
      }
      var _ :- AppendBytes([TAG_REVOKE] + pk + Wire.U64Bytes(certExpiry));
      revoked := revoked[pk := certExpiry];
      return Ok(());
    }

    method RecordFirstReceipt(id: GrantId, time: u64) returns (r: Result<(), LedgerError>)
      requires Valid()
      modifies this
      ensures Valid() && (r, Val()) == Step(old(Val()), DoReceipt(id, time))
    {
      if id in firstReceipts {
        return Ok(());
      }
      var _ :- AppendBytes([TAG_FIRST_RECEIPT] + id + Wire.U64Bytes(time));
      firstReceipts := firstReceipts[id := time];
      return Ok(());
    }

    // The entries of a map in an arbitrary order.
    static method Entries<K(!new), V(!new)>(m: map<K, V>) returns (s: seq<(K, V)>)
      ensures Enumerates(m, s)
    {
      s := [];
      var todo := m.Keys;
      while todo != {}
        invariant todo <= m.Keys
        invariant forall i, j :: 0 <= i < j < |s| ==> s[i].0 != s[j].0
        invariant forall p <- s :: p.0 in m && p.0 !in todo && m[p.0] == p.1
        invariant forall k <- m.Keys - todo :: (k, m[k]) in s
      {
        var k :| k in todo;
        s := s + [(k, m[k])];
        todo := todo - {k};
      }
    }

    method BuildImage() returns (image: bytes)
      ensures ImageOf(St(), image)
    {
      var cs := Entries(consumed);
      var rs := Entries(revoked);
      var fs := Entries(firstReceipts);
      image := Image(cs, rs, fs);
      assert Lists(St(), cs, rs, fs);
    }

    // Drop expired commits; if any went, replace the file by an image of what is left.
    method PruneExpired(now: u64) returns (r: Result<(), LedgerError>)
      requires Valid()
      modifies this
      ensures Valid() && readOnly == old(readOnly)
      ensures readOnly ==> r == Err(DiskError) && Val() == old(Val())
      ensures !readOnly ==> r == Ok(()) && St() == Prune(old(St()), now)
      ensures !readOnly && !Expired(old(St()), now) ==> Val() == old(Val())
      ensures !readOnly && Expired(old(St()), now) ==> isOpen && offset == 0 && ImageOf(St(), file)
    {
      hide ImageOf;
      if readOnly {
        return Err(DiskError);
      }
      if !Expired(St(), now) {
        return Ok(());
      }
      consumed := map id <- consumed.Keys | consumed[id] > now :: consumed[id];
      consumedOrder := Kept(consumedOrder, consumed);
      file := BuildImage();
      offset, isOpen := 0, true;
      return Ok(());
    }

    // Mark a grant spent. Known grants are left alone; a full table is pruned first.
    method CommitConsumed(id: GrantId, expiry: u64, now: u64) returns (r: Result<(), LedgerError>)
      requires Valid()
      modifies this
      ensures Valid()
      ensures !Rewrites(old(St()), DoCommit(id, expiry, now)) ==>
                (r, Val()) == Step(old(Val()), DoCommit(id, expiry, now))
      ensures old(isOpen) && !old(readOnly) ==>
                (r, St()) == CommitState(old(St()), id, expiry, now)
      ensures r.Ok? && Rewrites(old(St()), DoCommit(id, expiry, now)) ==>
                RewritesAndCommits(old(St()), id, expiry, now) && LeftBy(old(St()), id, expiry, now, file)
    {
      hide ImageOf, Expired;
      if id in consumed || id in published {
        return Ok(());
      }
      if |consumed| >= MAX_LIVE {
        var _ :- PruneExpired(now);
        if |consumed| >= MAX_LIVE {
          return Err(ResourceExhausted);
        }
      }
      var _ :- AppendBytes([TAG_COMMIT] + id + Wire.U64Bytes(expiry));
      consumedOrder := consumedOrder + [id];
      consumed := consumed[id := expiry];
      return Ok(());
    }

    method IsConsumed(id: GrantId) returns (r: bool)
      ensures r <==> id in consumed
    {
      return id in consumed;
    }
  }
}
