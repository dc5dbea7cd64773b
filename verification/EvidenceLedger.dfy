/** The in-memory evidence ledger: stored envelope hashes, one replay window per
    (sender, channel), anchors and revocations, and the admission pipeline over it. */
module EvidenceLedger {
  import opened Base
  import opened Collections
  import Replay

  const MAX_ENVELOPES := 4096
  const MAX_SEQ_WINDOWS := 256
  const MAX_ANCHORS := 256
  const MAX_REVOCATIONS := 64

  datatype LedgerError = StoreFull | SeqWindowsFull | AnchorsFull | RevocationsFull | Divergence | WindowStale
  datatype AdmissionError = UnknownParents | SeqWindowStale | Equivocation
  // What becomes of an envelope: dropped or rejected by the lookup, or put to admission.
  datatype Outcome = Duplicate | Contradicts | Answered(r: Result<(), AdmissionError>)

  datatype Key = Key(sender: bytes, channel: bytes)
  datatype Entry = Entry(hash: bytes, key: Key, seqNo: u64)
  datatype Anchor = Anchor(pubkey: bytes, hash: bytes)
  datatype Revocation = Revocation(pubkey: bytes, revokeHash: bytes, certExpiry: u64)
  datatype Request = Request(entry: Entry, parents: seq<bytes>)

  // ---------- the admission state as a value ----------

  datatype Store = Store(
    envelopes: seq<Entry>, windows: map<Key, set<u64>>, inserts: nat, storeFull: nat)

  const EMPTY: Store := Store([], map[], 0, 0)

  predicate SameSlot(a: Entry, b: Entry) {
    a.key == b.key && a.seqNo == b.seqNo
  }

  ghost predicate Occupied(s: Store, e: Entry) {
    exists x <- s.envelopes :: SameSlot(x, e)
  }

  ghost predicate Holds(s: Store, hash: bytes) {
    exists x <- s.envelopes :: x.hash == hash
  }

  ghost function InsertEnvelope(s: Store, e: Entry): (Result<(), LedgerError>, Store) {
    if Occupied(s, e) then
      ((if e in s.envelopes then Ok(()) else Err(Divergence)), s)
    else if |s.envelopes| >= MAX_ENVELOPES then
      (Err(StoreFull), s.(inserts := s.inserts + 1, storeFull := s.storeFull + 1))
    else
      (Ok(()), s.(envelopes := s.envelopes + [e], inserts := s.inserts + 1))
  }

  ghost function CheckSeq(s: Store, k: Key, n: u64): (Result<(), LedgerError>, Store) {
    if k in s.windows then
      ((if Replay.Fresh(s.windows[k], n) then Ok(()) else Err(WindowStale)),
       s.(windows := s.windows[k := Replay.Accept(s.windows[k], n)]))
    else if |s.windows| >= MAX_SEQ_WINDOWS then (Err(SeqWindowsFull), s)
    else (Ok(()), s.(windows := s.windows[k := {n}]))
  }

  // Parents, then the sequence window, then the store.
  ghost function Admit(s: Store, r: Request): (Result<(), AdmissionError>, Store) {
    if !(forall p <- r.parents :: Holds(s, p)) then (Err(UnknownParents), s) else
    var (seen, s1) := CheckSeq(s, r.entry.key, r.entry.seqNo);
    if seen.Err? then (Err(SeqWindowStale), s1) else
    var (stored, s2) := InsertEnvelope(s1, r.entry);
    ((if stored.Ok? then Ok(()) else Err(Equivocation)), s2)
  }

  ghost function AdmitAll(rs: seq<Request>): Store {
    if rs == [] then EMPTY else Admit(AdmitAll(rs[..|rs| - 1]), rs[|rs| - 1]).1
  }

  // The verdict on the i-th request of a run from the empty ledger.
  ghost function Verdict(rs: seq<Request>, i: nat): Result<(), AdmissionError>
    requires i < |rs|
  {
    Admit(AdmitAll(rs[..i]), rs[i]).0
  }

  ghost predicate Admitted(rs: seq<Request>, i: nat) {
    i < |rs| && Verdict(rs, i).Ok?
  }

  // The request got past the window: stored, or refused by the store.
  ghost predicate Consumed(rs: seq<Request>, i: nat) {
    i < |rs| && Verdict(rs, i) in {Ok(()), Err(Equivocation)}
  }

  // ---------- what every run keeps ----------

  ghost predicate Inv(s: Store) {
    && (forall e <- s.envelopes :: e.key in s.windows && e.seqNo in s.windows[e.key])
    && (forall i, j :: 0 <= i < j < |s.envelopes| ==> !SameSlot(s.envelopes[i], s.envelopes[j]))
    && |s.envelopes| <= MAX_ENVELOPES
    && |s.windows| <= MAX_SEQ_WINDOWS
    && s.inserts == |s.envelopes| + s.storeFull
  }

  // Once the window has let a request through, its slot is free: the store never sees a
  // duplicate, so neither its idempotent nor its divergence branch is taken.
  lemma WindowGuardsStore(s: Store, r: Request)
    requires Inv(s)
    requires CheckSeq(s, r.entry.key, r.entry.seqNo).0.Ok?
    ensures !Occupied(CheckSeq(s, r.entry.key, r.entry.seqNo).1, r.entry)
  {
  }

  lemma AdmitKeepsInv(s: Store, r: Request)
    requires Inv(s)
    ensures Inv(Admit(s, r).1)
  {
    var (seen, s1) := CheckSeq(s, r.entry.key, r.entry.seqNo);
    WindowSizes(s.windows, r.entry.key,
                Replay.Accept(if r.entry.key in s.windows then s.windows[r.entry.key] else {}, r.entry.seqNo));
    if seen.Ok? {
      WindowGuardsStore(s, r);
    }
  }

  // As many distinct keys as there are keys leaves none out.
  lemma EveryKeyHasWindow(ks: seq<Key>, all: set<Key>, k: Key)
    requires Distinct(ks) && |ks| == |all| && k in all
    requires forall x <- ks :: x in all
    ensures k in ks
  {
    if k !in ks {
      DistinctWithin(ks, all - {k});
    }
  }

  lemma WindowSizes(m: map<Key, set<u64>>, k: Key, v: set<u64>)
    ensures |m[k := v]| == if k in m then |m| else |m| + 1
  {
    assert m[k := v].Keys == m.Keys + {k};
    assert |m| == |m.Keys|;
  }

  lemma {:induction false} RunInv(rs: seq<Request>)
    ensures Inv(AdmitAll(rs))
  {
    if rs != [] {
      RunInv(rs[..|rs| - 1]);
      AdmitKeepsInv(AdmitAll(rs[..|rs| - 1]), rs[|rs| - 1]);
    }
  }

  // A refusal for missing parents leaves the ledger, windows included, as it was.
  lemma MissingParentsChangeNothing(s: Store, r: Request)
    requires Inv(s)
    ensures Admit(s, r).0 == Err(UnknownParents) <==> exists p <- r.parents :: !Holds(s, p)
    ensures Admit(s, r).0 == Err(UnknownParents) ==> Admit(s, r).1 == s
  {
  }

  // The pipeline reports an equivocation exactly when a fresh request meets a full store.
  lemma EquivocationMeansFull(s: Store, r: Request)
    requires Inv(s)
    ensures Admit(s, r).0 == Err(Equivocation) <==>
            && (forall p <- r.parents :: Holds(s, p))
            && CheckSeq(s, r.entry.key, r.entry.seqNo).0.Ok?
            && |s.envelopes| == MAX_ENVELOPES
  {
    if CheckSeq(s, r.entry.key, r.entry.seqNo).0.Ok? {
      WindowGuardsStore(s, r);
    }
  }

  // An envelope is admitted exactly when its parents are held, the store has room, and its number is one its window
  // has not had and has left behind by less than 1024, or is the first of a key there is still room for.
  lemma AdmittedIff(s: Store, r: Request)
    requires Inv(s)
    ensures Admit(s, r).0.Ok? <==>
              && (forall p <- r.parents :: exists e <- s.envelopes :: e.hash == p)
              && |s.envelopes| < 4096
              && (if r.entry.key in s.windows
                  then r.entry.seqNo !in s.windows[r.entry.key]
                       && forall n <- s.windows[r.entry.key] :: n < r.entry.seqNo + 1024
                  else |s.windows| < 256)
    ensures Admit(s, r).0.Ok? ==> Admit(s, r).1.envelopes == s.envelopes + [r.entry]
  {
    assert forall p :: Holds(s, p) <==> exists e <- s.envelopes :: e.hash == p;
    if CheckSeq(s, r.entry.key, r.entry.seqNo).0.Ok? {
      WindowGuardsStore(s, r);
    }
  }

  ghost predicate Spent(s: Store, k: Key, n: u64) {
    k in s.windows && n in s.windows[k]
  }

  lemma AdmitKeepsSpent(s: Store, r: Request, k: Key, n: u64)
    requires Spent(s, k, n)
    ensures Spent(Admit(s, r).1, k, n)
  {
  }

  lemma {:induction false} SpentStays(rs: seq<Request>, i: nat, k: Key, n: u64)
    requires i <= |rs| && Spent(AdmitAll(rs[..i]), k, n)
    ensures Spent(AdmitAll(rs), k, n)
    decreases |rs|
  {
    hide Admit, Spent;
    if i < |rs| {
      var before := rs[..|rs| - 1];
      assert before[..i] == rs[..i];
      SpentStays(before, i, k, n);
      AdmitKeepsSpent(AdmitAll(before), rs[|rs| - 1], k, n);
    } else {
      assert rs[..i] == rs;
    }
  }

  // Over any run, a (sender, channel, sequence number) gets past its window at most once;
  // in particular it is admitted at most once, whatever hashes it comes with.
  lemma SlotConsumedOnce(rs: seq<Request>, i: nat, j: nat)
    requires i < j < |rs| && SameSlot(rs[i].entry, rs[j].entry)
    ensures !(Consumed(rs, i) && Consumed(rs, j))
  {
    if Consumed(rs, i) {
      hide AdmitAll;
      var e := rs[i].entry;
      ConsumedIsSpent(AdmitAll(rs[..i]), rs[i]);
      AdmitAllStep(rs, i);
      PrefixOfPrefix(rs, i + 1, j);
      SpentStays(rs[..j], i + 1, e.key, e.seqNo);
      SpentIsStale(AdmitAll(rs[..j]), rs[j]);
    }
  }

  lemma AdmitAllStep(rs: seq<Request>, i: nat)
    requires i < |rs|
    ensures AdmitAll(rs[..i + 1]) == Admit(AdmitAll(rs[..i]), rs[i]).1
  {
    hide Admit;
    PrefixOfPrefix(rs, i, i + 1);
  }

  lemma ConsumedIsSpent(s: Store, r: Request)
    requires Admit(s, r).0 in {Ok(()), Err(Equivocation)}
    ensures Spent(Admit(s, r).1, r.entry.key, r.entry.seqNo)
  {
  }

  lemma SpentIsStale(s: Store, r: Request)
    requires Spent(s, r.entry.key, r.entry.seqNo)
    ensures Admit(s, r).0 in {Err(UnknownParents), Err(SeqWindowStale)}
  {
  }

  // ---------- the store is the admitted requests, parents first ----------

  ghost function AdmittedEntries(rs: seq<Request>): seq<Entry> {
    if rs == [] then []
    else
      AdmittedEntries(rs[..|rs| - 1])
      + (if Verdict(rs, |rs| - 1).Ok? then [rs[|rs| - 1].entry] else [])
  }

  lemma {:induction false} StoreIsAdmitted(rs: seq<Request>)
    ensures AdmitAll(rs).envelopes == AdmittedEntries(rs)
  {
    if rs != [] {
      var before, last := rs[..|rs| - 1], rs[|rs| - 1];
      StoreIsAdmitted(before);
      RunInv(before);
      var s := AdmitAll(before);
      if CheckSeq(s, last.entry.key, last.entry.seqNo).0.Ok? {
        WindowGuardsStore(s, last);
      }
    }
  }

  lemma {:induction false} AdmittedEntryOrigin(rs: seq<Request>, e: Entry)
    requires e in AdmittedEntries(rs)
    ensures exists j: nat :: Admitted(rs, j) && rs[j].entry == e
  {
    hide Admit, AdmitAll;
    var before := rs[..|rs| - 1];
    if e in AdmittedEntries(before) {
      AdmittedEntryOrigin(before, e);
      var j: nat :| Admitted(before, j) && before[j].entry == e;
      PrefixOfPrefix(rs, j, |before|);
      assert Admitted(rs, j) && rs[j].entry == e;
    } else {
      assert Admitted(rs, |rs| - 1);
    }
  }

  // Every parent of an admitted request is the hash of a strictly earlier admitted request.
  lemma ParentsAdmittedEarlier(rs: seq<Request>, i: nat, p: bytes)
    requires Admitted(rs, i) && p in rs[i].parents
    ensures exists j: nat :: j < i && Admitted(rs, j) && rs[j].entry.hash == p
  {
    hide AdmitAll, AdmittedEntries;
    StoreIsAdmitted(rs[..i]);
    var x :| x in AdmitAll(rs[..i]).envelopes && x.hash == p;
    AdmittedEntryOrigin(rs[..i], x);
    var j: nat :| Admitted(rs[..i], j) && rs[..i][j].entry == x;
    PrefixOfPrefix(rs, j, i);
    assert Admitted(rs, j) && rs[j].entry == x;
  }

  // ---------- order does not matter within a window ----------

  ghost function KeysOf(rs: seq<Request>): set<Key> {
    set i | 0 <= i < |rs| :: rs[i].entry.key
  }

  // Admission puts nothing into the windows but the number it was asked about.
  lemma OnlyThisNumber(s: Store, r: Request, k: Key, n: u64)
    requires Spent(Admit(s, r).1, k, n)
    ensures Spent(s, k, n) || (k == r.entry.key && n == r.entry.seqNo)
  {
  }

  lemma OnlyThisKey(s: Store, r: Request, k: Key)
    requires k in Admit(s, r).1.windows
    ensures k in s.windows || k == r.entry.key
  {
  }

  // A window belongs to a key that came, and holds numbers that came with it.
  lemma {:induction false} WindowsCameFrom(rs: seq<Request>, k: Key)
    requires k in AdmitAll(rs).windows
    ensures k in KeysOf(rs)
    ensures forall n <- AdmitAll(rs).windows[k] :: Came(rs, k, n)
  {
    hide Admit;
    var last := |rs| - 1;
    var before := rs[..last];
    assert rs[last].entry.key in KeysOf(rs);
    OnlyThisKey(AdmitAll(before), rs[last], k);
    if k in AdmitAll(before).windows {
      WindowsCameFrom(before, k);
      var i :| 0 <= i < |before| && before[i].entry.key == k;
      assert rs[i].entry.key == k;
    }
    forall n | n in AdmitAll(rs).windows[k] ensures Came(rs, k, n) {
      OnlyThisNumber(AdmitAll(before), rs[last], k, n);
      if Spent(AdmitAll(before), k, n) {
        var i :| 0 <= i < |before| && before[i].entry.key == k && before[i].entry.seqNo == n;
        assert rs[i].entry.key == k && rs[i].entry.seqNo == n;
      } else {
        assert rs[last].entry.key == k && rs[last].entry.seqNo == n;
      }
    }
  }

  ghost predicate Came(rs: seq<Request>, k: Key, n: u64) {
    exists i :: 0 <= i < |rs| && rs[i].entry.key == k && rs[i].entry.seqNo == n
  }

  // Whatever number a key starts at, and whatever gaps it leaves: over any run, an envelope whose parents have been
  // admitted, whose number has not come with its key and has not been overtaken by 1024 or more, is admitted while
  // the store has room and no more than 256 keys have come.
  lemma ReorderingTolerated(rs: seq<Request>, i: nat)
    requires i < |rs| && |AdmittedEntries(rs[..i])| < 4096 && |KeysOf(rs[..i + 1])| <= 256
    requires forall p <- rs[i].parents :: exists e <- AdmittedEntries(rs[..i]) :: e.hash == p
    requires forall j :: 0 <= j < i && rs[j].entry.key == rs[i].entry.key ==>
               rs[j].entry.seqNo != rs[i].entry.seqNo && rs[j].entry.seqNo < rs[i].entry.seqNo + 1024
    ensures Admitted(rs, i)
  {
    var before, k := rs[..i], rs[i].entry.key;
    var s := AdmitAll(before);
    RunInv(before);
    StoreIsAdmitted(before);
    if k in s.windows {
      WindowsCameFrom(before, k);
    } else {
      FewWindows(rs, i);
    }
    hide Admit, AdmitAll, AdmittedEntries;
    AdmittedIff(s, rs[i]);
  }

  lemma FewWindows(rs: seq<Request>, i: nat)
    requires i < |rs| && rs[i].entry.key !in AdmitAll(rs[..i]).windows && |KeysOf(rs[..i + 1])| <= 256
    ensures |AdmitAll(rs[..i]).windows| < 256
  {
    var m, k, all := AdmitAll(rs[..i]).windows, rs[i].entry.key, KeysOf(rs[..i + 1]);
    forall x | x in m.Keys ensures x in all - {k} {
      WindowsCameFrom(rs[..i], x);
      var j :| 0 <= j < i && rs[..i][j].entry.key == x;
      assert rs[..i + 1][j].entry.key == x;
    }
    assert rs[..i + 1][i].entry.key == k;
    SubsetCount(m.Keys, all - {k});
    assert |m| == |m.Keys|;
  }

  // ---------- a full store is reached, and is reported as equivocation ----------

  // Envelopes of one key without parents, numbered from 0.
  ghost predicate CountsUp(rs: seq<Request>, k: Key) {
    forall i :: 0 <= i < |rs| ==> rs[i].parents == [] && rs[i].entry.key == k && rs[i].entry.seqNo == i
  }

  // While there is room each is stored, the window of the key following.
  lemma {:induction false} CountingUpIsStored(rs: seq<Request>, k: Key)
    requires CountsUp(rs, k) && |rs| <= MAX_ENVELOPES
    ensures var s := AdmitAll(rs);
            && |s.envelopes| == |rs|
            && (k in s.windows || (rs == [] && s.windows == map[]))
            && (k in s.windows ==> forall n <- s.windows[k] :: n < |rs|)
  {
    if rs != [] {
      var last := |rs| - 1;
      CountingUpIsStored(rs[..last], k);
      NextIsStored(rs[..last], rs[last], k);
    }
  }

  // The next number is fresh to the window; only a full store can refuse it.
  lemma NextIsStored(before: seq<Request>, r: Request, k: Key)
    requires r.parents == [] && r.entry.key == k && r.entry.seqNo == |before|
    requires var s := AdmitAll(before);
             && |s.envelopes| == |before|
             && (k in s.windows || (before == [] && s.windows == map[]))
             && (k in s.windows ==> forall n <- s.windows[k] :: n < |before|)
    ensures var (res, s) := Admit(AdmitAll(before), r);
            && res == (if |before| < MAX_ENVELOPES then Ok(()) else Err(Equivocation))
            && k in s.windows && (forall n <- s.windows[k] :: n <= |before|)
            && (|before| < MAX_ENVELOPES ==> |s.envelopes| == |before| + 1)
  {
    RunInv(before);
    assert CheckSeq(AdmitAll(before), k, r.entry.seqNo).0.Ok?;
    WindowGuardsStore(AdmitAll(before), r);
  }

  // 4096 envelopes, no two in one slot, fill the store; the next, in a slot of its own as well, is
  // answered as an equivocation.
  lemma FullStoreReportsEquivocation(rs: seq<Request>, k: Key)
    requires CountsUp(rs, k) && |rs| == MAX_ENVELOPES + 1
    ensures Verdict(rs, MAX_ENVELOPES) == Err(Equivocation)
    ensures forall i :: 0 <= i < MAX_ENVELOPES ==> Admitted(rs, i)
    ensures forall i, j :: 0 <= i < j < |rs| ==> !SameSlot(rs[i].entry, rs[j].entry)
  {
    forall i | 0 <= i < |rs|
      ensures Verdict(rs, i) == if i < MAX_ENVELOPES then Ok(()) else Err(Equivocation)
    {
      CountingUpIsStored(rs[..i], k);
      NextIsStored(rs[..i], rs[i], k);
    }
  }

  // ---------- the lookup before admission ----------

  // A slot already stored settles the envelope: the same hash is dropped, another is an equivocation.
  ghost function Handle(s: Store, r: Request): (Outcome, Store) {
    if Occupied(s, r.entry) then ((if r.entry in s.envelopes then Duplicate else Contradicts), s)
    else var (res, after) := Admit(s, r); (Answered(res), after)
  }

  ghost function HandleAll(rs: seq<Request>): Store {
    if rs == [] then EMPTY else Handle(HandleAll(rs[..|rs| - 1]), rs[|rs| - 1]).1
  }

  ghost function Handled(rs: seq<Request>, i: nat): Outcome
    requires i < |rs|
  {
    Handle(HandleAll(rs[..i]), rs[i]).0
  }

  lemma {:induction false} HandleAllInv(rs: seq<Request>)
    ensures Inv(HandleAll(rs))
  {
    if rs != [] {
      HandleAllInv(rs[..|rs| - 1]);
      AdmitKeepsInv(HandleAll(rs[..|rs| - 1]), rs[|rs| - 1]);
    }
  }

  lemma StoredStays(s: Store, r: Request, e: Entry)
    requires e in s.envelopes
    ensures e in Handle(s, r).1.envelopes
  {
  }

  lemma {:induction false} StoredForGood(rs: seq<Request>, i: nat, e: Entry)
    requires i <= |rs| && e in HandleAll(rs[..i]).envelopes
    ensures e in HandleAll(rs).envelopes
    decreases |rs|
  {
    if i < |rs| {
      var before := rs[..|rs| - 1];
      assert before[..i] == rs[..i];
      StoredForGood(before, i, e);
      StoredStays(HandleAll(before), rs[|rs| - 1], e);
    } else {
      assert rs[..i] == rs;
    }
  }

  lemma AdmittedIsStored(s: Store, r: Request)
    requires Handle(s, r).0 == Answered(Ok(())) && Inv(s)
    ensures r.entry in Handle(s, r).1.envelopes
  {
    WindowGuardsStore(s, r);
  }

  // Once an envelope is admitted, every later one for its slot is caught by the lookup, over any run: the same
  // envelope is a duplicate, another hash contradicts it, and neither changes the ledger.
  lemma LaterCaughtByLookup(rs: seq<Request>, i: nat, j: nat)
    requires i < j < |rs| && SameSlot(rs[i].entry, rs[j].entry)
    requires Handled(rs, i) == Answered(Ok(()))
    ensures Handled(rs, j) == if rs[j].entry.hash == rs[i].entry.hash then Duplicate else Contradicts
    ensures HandleAll(rs[..j + 1]) == HandleAll(rs[..j])
  {
    hide HandleAll, Inv, Occupied, Admit, SameSlot;
    HandleAllInv(rs[..i]);
    HandleAllInv(rs[..j]);
    AdmittedIsStored(HandleAll(rs[..i]), rs[i]);
    HandleAllStep(rs, i);
    PrefixOfPrefix(rs, i + 1, j);
    StoredForGood(rs[..j], i + 1, rs[i].entry);
    SlotHoldsOne(HandleAll(rs[..j]), rs[i].entry, rs[j].entry);
    HandleAllStep(rs, j);
  }

  lemma HandleAllStep(rs: seq<Request>, i: nat)
    requires i < |rs|
    ensures HandleAll(rs[..i + 1]) == Handle(HandleAll(rs[..i]), rs[i]).1
  {
    hide Handle;
    PrefixOfPrefix(rs, i, i + 1);
  }

  lemma SlotHoldsOne(s: Store, stored: Entry, e: Entry)
    requires Inv(s) && stored in s.envelopes && SameSlot(stored, e)
    ensures Occupied(s, e) && (e in s.envelopes <==> e.hash == stored.hash)
  {
  }

  // An equivocation is reported for exactly two reasons: the slot is stored with another hash, or the store is full
  // when an envelope for a free slot has passed every check before it.
  lemma EquivocationReportedIff(s: Store, r: Request)
    requires Inv(s)
    ensures Handle(s, r).0 in {Contradicts, Answered(Err(Equivocation))} <==>
            || (exists x <- s.envelopes :: SameSlot(x, r.entry) && x.hash != r.entry.hash)
            || (&& !Occupied(s, r.entry) && (forall p <- r.parents :: Holds(s, p))
                && CheckSeq(s, r.entry.key, r.entry.seqNo).0.Ok? && |s.envelopes| == MAX_ENVELOPES)
  {
    if Occupied(s, r.entry) {
      var x :| x in s.envelopes && SameSlot(x, r.entry);
      SlotHoldsOne(s, x, r.entry);
      assert forall y <- s.envelopes :: SameSlot(y, r.entry) ==> y == x;
    } else {
      EquivocationMeansFull(s, r);
    }
  }

  // ---------- the ledger object ----------

  // A window record: its key, and the replay filter it owns.
  datatype SeqWindow = SeqWindow(key: Key, replay: Replay.ReplayWindow)

  class Ledger {
    var envelopes: seq<Entry>
    var seqWindows: seq<SeqWindow>
    var anchors: seq<Anchor>
    var revocations: seq<Revocation>
    var insertsTotal: nat
    var storefullTotal: nat
    ghost var windows: map<Key, set<u64>>
    ghost var Repr: set<object>

    ghost predicate Valid()
      reads this, Repr
    {
      && SlotsDistinct(envelopes) && |envelopes| <= MAX_ENVELOPES
      && this !in Repr && WindowsValid()
      && DistinctAnchors(anchors) && |anchors| <= MAX_ANCHORS
      && DistinctKeys(revocations) && |revocations| <= MAX_REVOCATIONS
    }

    // One window object per key, sharing nothing, each agreeing with the ghost map.
    ghost predicate WindowsValid()
      reads `seqWindows, `windows, `Repr, Repr
    {
      && this !in Repr
      && |seqWindows| == |windows| <= MAX_SEQ_WINDOWS
      && (forall i :: 0 <= i < |seqWindows| ==> WindowOk(seqWindows[i]))
      && (forall i, j :: 0 <= i < j < |seqWindows| ==> Apart(seqWindows[i], seqWindows[j]))
    }

    ghost predicate WindowOk(w: SeqWindow)
      reads `windows, `Repr, Repr
    {
      && w.replay in Repr && w.replay.window in Repr && w.replay.Valid()
      && w.key in windows && windows[w.key] == w.replay.accepted
    }

    static ghost predicate Apart(v: SeqWindow, w: SeqWindow) {
      && v.key != w.key
      && v.replay != w.replay && v.replay.window != w.replay.window
    }

    ghost function State(): Store
      reads this
    {
      Store(envelopes, windows, insertsTotal, storefullTotal)
    }

    constructor ()
      ensures Valid() && fresh(Repr) && State() == EMPTY
      ensures anchors == [] && revocations == []
    {
      envelopes, seqWindows, anchors, revocations := [], [], [], [];
      insertsTotal, storefullTotal, windows, Repr := 0, 0, map[], {};
    }

    // The stored hash at a slot, if any.
    method FindEnvelope(key: Key, seqNo: u64) returns (r: Option<bytes>)
      ensures r.None? ==> !Occupied(State(), Entry([], key, seqNo))
      ensures r.Some? ==> Entry(r.value, key, seqNo) in envelopes
    {
      for i := 0 to |envelopes|
        invariant forall k :: 0 <= k < i ==> !SameSlot(envelopes[k], Entry([], key, seqNo))
      {
        if envelopes[i].key == key && envelopes[i].seqNo == seqNo {
          return Some(envelopes[i].hash);
        }
      }
      return None;
    }

    // Scan for the slot first, so that a re-sent envelope is answered even by a full store.
    method InsertEntry(e: Entry) returns (r: Result<(), LedgerError>)
      requires SlotsDistinct(envelopes) && |envelopes| <= MAX_ENVELOPES
      modifies `envelopes, `insertsTotal, `storefullTotal
      ensures SlotsDistinct(envelopes) && |envelopes| <= MAX_ENVELOPES
      ensures (r, State()) == InsertEnvelope(old(State()), e)
    {
      for i := 0 to |envelopes|
        invariant forall k :: 0 <= k < i ==> !SameSlot(envelopes[k], e)
      {
        if SameSlot(envelopes[i], e) {
          if envelopes[i].hash == e.hash {
            return Ok(());
          } else {
            return Err(Divergence);
          }
        }
      }
      if |envelopes| >= MAX_ENVELOPES {
        insertsTotal := insertsTotal + 1;
        storefullTotal := storefullTotal + 1;
        return Err(StoreFull);
      }
      envelopes := envelopes + [e];
      insertsTotal := insertsTotal + 1;
      return Ok(());
    }

    method AllParentsPresent(parents: seq<bytes>) returns (r: bool)
      ensures r <==> forall p <- parents :: Holds(State(), p)
    {
      for i := 0 to |parents|
        invariant forall k :: 0 <= k < i ==> Holds(State(), parents[k])
      {
        var present := exists x <- envelopes :: x.hash == parents[i];
        if !present {
          assert parents[i] in parents && !Holds(State(), parents[i]);
          return false;
        }
      }
      return true;
    }

    method FindWindow(key: Key) returns (r: Option<nat>)
      requires WindowsValid()
      ensures |seqWindows| == |windows| && this !in Repr
      ensures r.None? ==> key !in windows
      ensures r.Some? ==> r.value < |seqWindows| && seqWindows[r.value].key == key
    {
      for i := 0 to |seqWindows|
        invariant forall k :: 0 <= k < i ==> seqWindows[k].key != key
      {
        if seqWindows[i].key == key {
          return Some(i);
        }
      }
      if key in windows {
        EveryKeyHasWindow(
          seq(|seqWindows|, i requires 0 <= i < |seqWindows| reads this => seqWindows[i].key), windows.Keys, key);
      }
      return None;
    }

    // Let an existing window decide.
    method AdvanceWindow(i: nat, seqNo: u64) returns (isFresh: bool)
      requires WindowsValid() && i < |seqWindows|
      modifies `windows, Repr
      ensures WindowsValid()
      ensures var k := seqWindows[i].key;
              && k in old(windows)
              && isFresh == Replay.Fresh(old(windows)[k], seqNo)
              && windows == old(windows)[k := Replay.Accept(old(windows)[k], seqNo)]
    {
      var w := seqWindows[i];
      assert WindowOk(w);
      isFresh := w.replay.Check(seqNo);
      WindowSizes(windows, w.key, w.replay.accepted);
      windows := windows[w.key := w.replay.accepted];
      forall j | 0 <= j < |seqWindows| ensures WindowOk(seqWindows[j]) {
        if j < i {
          assert Apart(seqWindows[j], seqWindows[i]);
        } else if i < j {
          assert Apart(seqWindows[i], seqWindows[j]);
        }
      }
    }

    // A new window: its first call sets the largest counter.
    static method SeededWindow(seqNo: u64) returns (rw: Replay.ReplayWindow)
      ensures fresh(rw) && fresh(rw.window) && rw.Valid() && rw.accepted == {seqNo}
    {
      rw := new Replay.ReplayWindow();
      var _ := rw.Check(seqNo);
    }

    // Open a window seeded with its first sequence number.
    method OpenWindow(key: Key, seqNo: u64)
      requires WindowsValid() && key !in windows && |seqWindows| < MAX_SEQ_WINDOWS
      modifies `seqWindows, `windows, `Repr
      ensures this !in Repr && WindowsValid() && fresh(Repr - old(Repr))
      ensures windows == old(windows)[key := {seqNo}]
    {
      var rw := SeededWindow(seqNo);
      WindowSizes(windows, key, {seqNo});
      ghost var before := seqWindows;
      seqWindows := seqWindows + [SeqWindow(key, rw)];
      windows := windows[key := {seqNo}];
      Repr := Repr + {rw, rw.window};
      assert WindowOk(SeqWindow(key, rw));
      forall j | 0 <= j < |seqWindows| ensures WindowOk(seqWindows[j]) {
        if j < |before| {
          assert old(WindowOk(before[j])) && seqWindows[j] == before[j];
        }
      }
      forall i, j | 0 <= i < j < |seqWindows| ensures Apart(seqWindows[i], seqWindows[j]) {
        if j < |before| {
          assert Apart(before[i], before[j]) && seqWindows[i] == before[i] && seqWindows[j] == before[j];
        } else {
          assert old(WindowOk(before[i])) && seqWindows[i] == before[i];
        }
      }
    }

    // Check a sequence number against its window, creating the window on first use.
    method CheckWindow(key: Key, seqNo: u64) returns (r: Result<(), LedgerError>)
      requires WindowsValid()
      modifies `seqWindows, `windows, `Repr, Repr
      ensures this !in Repr && WindowsValid() && fresh(Repr - old(Repr))
      ensures (r, State()) == CheckSeq(old(State()), key, seqNo)
    {
      var idx := FindWindow(key);
      if idx.Some? {
        var isFresh := AdvanceWindow(idx.value, seqNo);
        return if isFresh then Ok(()) else Err(WindowStale);
      }
      if |seqWindows| >= MAX_SEQ_WINDOWS {
        return Err(SeqWindowsFull);
      }
      OpenWindow(key, seqNo);
      return Ok(());
    }

    // Parents before sequence number before store.
    method VerifyEnvelopeAdmission(q: Request) returns (r: Result<(), AdmissionError>)
      requires Valid()
      modifies `envelopes, `insertsTotal, `storefullTotal, `seqWindows, `windows, `Repr, Repr
      ensures Valid() && fresh(Repr - old(Repr))
      ensures (r, State()) == Admit(old(State()), q)
    {
      var present := AllParentsPresent(q.parents);
      if !present {
        return Err(UnknownParents);
      }
      var seen := CheckWindow(q.entry.key, q.entry.seqNo);
      if seen.Err? {
        return Err(SeqWindowStale);
      }
      var stored := InsertEntry(q.entry);
      return if stored.Ok? then Ok(()) else Err(Equivocation);
    }

    // An envelope whose slot is stored is settled by the lookup and goes no further.
    method AdmitUnlessStored(q: Request) returns (outcome: Outcome)
      requires Valid()
      modifies `envelopes, `insertsTotal, `storefullTotal, `seqWindows, `windows, `Repr, Repr
      ensures Valid() && fresh(Repr - old(Repr))
      ensures (outcome, State()) == Handle(old(State()), q)
    {
      var existing := FindEnvelope(q.entry.key, q.entry.seqNo);
      if existing.Some? {
        assert SameSlot(Entry(existing.value, q.entry.key, q.entry.seqNo), q.entry);
        if existing.value == q.entry.hash {
          return Duplicate;
        }
        return Contradicts;
      }
      var r := VerifyEnvelopeAdmission(q);
      return Answered(r);
    }

    // The first envelope of a key is its anchor for good.
    method SetAnchor(pubkey: bytes, hash: bytes) returns (r: Result<(), LedgerError>)
      requires DistinctAnchors(anchors) && |anchors| <= MAX_ANCHORS
      modifies `anchors
      ensures DistinctAnchors(anchors) && |anchors| <= MAX_ANCHORS
      ensures r == if Anchor(pubkey, hash) in old(anchors) then Ok(())
                   else if exists a <- old(anchors) :: a.pubkey == pubkey then Err(Divergence)
                   else if |old(anchors)| >= MAX_ANCHORS then Err(AnchorsFull)
                   else Ok(())
      ensures anchors == if r.Ok? && Anchor(pubkey, hash) !in old(anchors)
                         then old(anchors) + [Anchor(pubkey, hash)] else old(anchors)
    {
      for i := 0 to |anchors|
        invariant forall k :: 0 <= k < i ==> anchors[k].pubkey != pubkey
      {
        if anchors[i].pubkey == pubkey {
          if anchors[i].hash == hash {
            return Ok(());
          } else {
            return Err(Divergence);
          }
        }
      }
      if |anchors| >= MAX_ANCHORS {
        return Err(AnchorsFull);
      }
      anchors := anchors + [Anchor(pubkey, hash)];
      return Ok(());
    }

    // Record a revocation; a full table first gives up the entry whose certificate expires soonest.
    method SetRevocation(pubkey: bytes, revokeHash: bytes, certExpiry: u64) returns (r: Result<(), LedgerError>)
      requires DistinctKeys(revocations) && |revocations| <= MAX_REVOCATIONS
      modifies `revocations
      ensures (r, revocations) == Revoke(old(revocations), Revocation(pubkey, revokeHash, certExpiry))
    {
      for i := 0 to |revocations|
        invariant forall k :: 0 <= k < i ==> revocations[k].pubkey != pubkey
      {
        if revocations[i].pubkey == pubkey {
          if revocations[i].revokeHash == revokeHash {
            return Ok(());
          } else {
            return Err(Divergence);
          }
        }
      }
      if |revocations| >= MAX_REVOCATIONS {
        var minIdx := 0;
        for i := 1 to |revocations|
          invariant SoonestBefore(revocations, minIdx, i)
        {
          if revocations[i].certExpiry < revocations[minIdx].certExpiry {
            minIdx := i;
          }
        }
        SoonestUnique(revocations, minIdx);
        revocations := SwapRemove(revocations, minIdx);
      }
      revocations := revocations + [Revocation(pubkey, revokeHash, certExpiry)];
      return Ok(());
    }
  }

  predicate DistinctKeys(rs: seq<Revocation>) {
    forall i, j :: 0 <= i < j < |rs| ==> rs[i].pubkey != rs[j].pubkey
  }

  predicate DistinctAnchors(s: seq<Anchor>) {
    forall i, j :: 0 <= i < j < |s| ==> s[i].pubkey != s[j].pubkey
  }

  predicate SlotsDistinct(s: seq<Entry>) {
    forall i, j :: 0 <= i < j < |s| ==> !SameSlot(s[i], s[j])
  }

  // ---------- revocations ----------

  // Index m is the first with the least expiry among the first n entries.
  predicate SoonestBefore(rs: seq<Revocation>, m: nat, n: nat) {
    && m < n <= |rs|
    && forall k :: 0 <= k < n ==>
         if k < m then rs[m].certExpiry < rs[k].certExpiry else rs[m].certExpiry <= rs[k].certExpiry
  }

  ghost function Soonest(rs: seq<Revocation>): (m: nat)
    requires rs != []
    ensures SoonestBefore(rs, m, |rs|)
  {
    SoonestExists(rs, |rs|);
    var m: nat :| SoonestBefore(rs, m, |rs|);
    m
  }

  lemma {:induction false} SoonestExists(rs: seq<Revocation>, n: nat)
    requires 1 <= n <= |rs|
    ensures exists m: nat :: SoonestBefore(rs, m, n)
  {
    if n == 1 {
      assert SoonestBefore(rs, 0, 1);
    } else {
      SoonestExists(rs, n - 1);
      var m: nat :| SoonestBefore(rs, m, n - 1);
      assert SoonestBefore(rs, if rs[n - 1].certExpiry < rs[m].certExpiry then n - 1 else m, n);
    }
  }

  lemma SoonestUnique(rs: seq<Revocation>, m: nat)
    requires SoonestBefore(rs, m, |rs|)
    ensures m == Soonest(rs)
  {
    var k := Soonest(rs);
    assert rs[k].certExpiry <= rs[m].certExpiry && rs[m].certExpiry <= rs[k].certExpiry;
  }

  // Remove an element, filling its place with the last one.
  function SwapRemove<T>(s: seq<T>, i: nat): seq<T>
    requires i < |s|
  {
    var last := |s| - 1;
    if i == last then s[..last] else s[..i] + [s[last]] + s[i + 1..last]
  }

  lemma SwapRemoveMultiset<T>(s: seq<T>, i: nat)
    requires i < |s|
    ensures multiset(SwapRemove(s, i)) == multiset(s) - multiset{s[i]}
  {
    var last := |s| - 1;
    if i == last {
      Rejoined(s, last);
      assert multiset(s[..last] + [s[last]] + []) == multiset(s[..last]) + multiset{s[last]};
    } else {
      LastFillsGap(s[..i], s[i], s[i + 1..last], s[last]);
      FourPieces(s, i);
    }
  }

  lemma Rejoined<T>(s: seq<T>, i: nat)
    requires i < |s|
    ensures s == s[..i] + [s[i]] + s[i + 1..]
  {
  }

  lemma FourPieces<T>(s: seq<T>, i: nat)
    requires i < |s| - 1
    ensures s == s[..i] + [s[i]] + s[i + 1..|s| - 1] + [s[|s| - 1]]
  {
  }

  lemma LastFillsGap<T>(a: seq<T>, x: T, b: seq<T>, y: T)
    ensures multiset(a + [y] + b) == multiset(a + [x] + b + [y]) - multiset{x}
  {
  }

  ghost function Revoke(rs: seq<Revocation>, r: Revocation): (Result<(), LedgerError>, seq<Revocation>) {
    if exists x <- rs :: x.pubkey == r.pubkey then
      ((if exists x <- rs :: x.pubkey == r.pubkey && x.revokeHash == r.revokeHash
        then Ok(()) else Err(Divergence)), rs)
    else if |rs| < MAX_REVOCATIONS then (Ok(()), rs + [r])
    else (Ok(()), SwapRemove(rs, Soonest(rs)) + [r])
  }

  // A new key in a full table.
  lemma SoonestGivenUp(rs: seq<Revocation>, r: Revocation)
    requires DistinctKeys(rs) && rs != [] && forall x <- rs :: x.pubkey != r.pubkey
    ensures var out := SwapRemove(rs, Soonest(rs)) + [r];
            && DistinctKeys(out) && |out| == |rs|
            && multiset(out) == multiset(rs) - multiset{rs[Soonest(rs)]} + multiset{r}
            && forall x <- rs :: rs[Soonest(rs)].certExpiry <= x.certExpiry
  {
    SwapRemoveMultiset(rs, Soonest(rs));
  }

  // A revocation is refused only for contradicting an earlier one; accepting it costs a full table
  // exactly one entry, none of the others expiring sooner than the one given up.
  lemma RevocationKept(rs: seq<Revocation>, r: Revocation)
    requires DistinctKeys(rs) && |rs| <= MAX_REVOCATIONS
    ensures var (res, out) := Revoke(rs, r);
            && DistinctKeys(out) && |out| <= MAX_REVOCATIONS
            && (res.Ok? || res == Err(Divergence))
            && (res.Err? <==> exists x <- rs :: x.pubkey == r.pubkey && x.revokeHash != r.revokeHash)
            && ((exists x <- rs :: x.pubkey == r.pubkey) ==> out == rs)
            && (res.Ok? ==> exists x <- out :: x.pubkey == r.pubkey && x.revokeHash == r.revokeHash)
            && (res.Ok? && (forall x <- rs :: x.pubkey != r.pubkey) ==>
                  if |rs| < MAX_REVOCATIONS then multiset(out) == multiset(rs) + multiset{r}
                  else exists gone <- rs ::
                         && multiset(out) == multiset(rs) - multiset{gone} + multiset{r}
                         && forall x <- rs :: gone.certExpiry <= x.certExpiry)
  {
    if (forall x <- rs :: x.pubkey != r.pubkey) {
      var (res, out) := Revoke(rs, r);
      assert out[|out| - 1] == r;
      if |rs| == MAX_REVOCATIONS {
        SoonestGivenUp(rs, r);
        hide SwapRemove, DistinctKeys, SoonestBefore;
        assert rs[Soonest(rs)] in rs;
      }
    }
  }
}
