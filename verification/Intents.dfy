/** The intent table: pending intents hold an exclusive lock on their resource until they execute,
    are refused, or time out. */
module Intents {
  import opened Base

  const T_PENDING_MS := 900_000
  const MAX_PENDING := 256
  const MAX_RESOURCE := 256

  datatype IntentError = TableFull | DuplicateIntentId | ResourceHeld | NotPending
  datatype RefusalOutcome = Rejected | NoMatch
  datatype Status = Pending | Executing | Expired | Refused

  // A live intent; `resource` stands for the used part of the entry's fixed buffer.
  datatype Entry = Entry(intentId: bytes, resource: bytes, status: Status, admittedMs: u64) {
    predicate Live() {
      status == Pending || status == Executing
    }

    predicate PendingAs(id: bytes) {
      status == Pending && intentId == id
    }

    predicate TimedOut(now: u64) {
      status == Pending && now > admittedMs + T_PENDING_MS
    }
  }

  // ---------- what each operation does ----------

  function Admit(es: seq<Entry>, id: bytes, resource: bytes, now: u64): (Result<(), IntentError>, seq<Entry>) {
    if exists e <- es :: e.PendingAs(id) then (Err(DuplicateIntentId), es)
    else if exists e <- es :: e.Live() && e.resource == resource then (Err(ResourceHeld), es)
    else if |es| >= MAX_PENDING then (Err(TableFull), es)
    else (Ok(()), es + [Entry(id, resource, Pending, now)])
  }

  function BeginExecuting(es: seq<Entry>, idx: nat): (Result<(), IntentError>, seq<Entry>) {
    if idx < |es| && es[idx].status == Pending
    then (Ok(()), es[idx := es[idx].(status := Executing)])
    else (Err(NotPending), es)
  }

  function Compact(es: seq<Entry>): (r: seq<Entry>)
    ensures forall e :: e in r <==> e in es && e.Live()
    ensures |r| <= |es|
  {
    if es == [] then []
    else (if es[0].Live() then [es[0]] else []) + Compact(es[1..])
  }

  // The first pending entry with this id.
  function FirstPending(es: seq<Entry>, id: bytes): (r: Option<nat>)
    ensures r.None? <==> forall e <- es :: !e.PendingAs(id)
    ensures r.Some? ==> r.value < |es| && es[r.value].PendingAs(id)
                        && forall k :: 0 <= k < r.value ==> !es[k].PendingAs(id)
  {
    if es == [] then None
    else if es[0].PendingAs(id) then Some(0)
    else match FirstPending(es[1..], id)
      case None => None
      case Some(i) => Some(i + 1)
  }

  function ApplyRefusal(es: seq<Entry>, id: bytes): (RefusalOutcome, seq<Entry>) {
    match FirstPending(es, id)
    case None => (NoMatch, es)
    case Some(i) => (Rejected, Compact(es[i := es[i].(status := Refused)]))
  }

  function Mark(e: Entry, now: u64): Entry {
    if e.TimedOut(now) then e.(status := Expired) else e
  }

  function MarkAll(es: seq<Entry>, now: u64): seq<Entry> {
    seq(|es|, i requires 0 <= i < |es| => Mark(es[i], now))
  }

  function CountTimedOut(es: seq<Entry>, now: u64): nat {
    if es == [] then 0 else CountTimedOut(es[..|es| - 1], now) + (if es[|es| - 1].TimedOut(now) then 1 else 0)
  }

  function ExpireTimeouts(es: seq<Entry>, now: u64): (nat, seq<Entry>) {
    var n := CountTimedOut(es, now);
    (n, if n > 0 then Compact(MarkAll(es, now)) else es)
  }

  // ---------- what each answer means ----------

  // A proposal is refused for an id pending already, else for a resource held already, else for a full table; otherwise
  // it is pending from now on, the last in line.
  lemma AdmitAnswers(es: seq<Entry>, id: bytes, resource: bytes, now: u64)
    ensures var (r, out) := Admit(es, id, resource, now);
            var pending := exists e <- es :: e.status == Pending && e.intentId == id;
            var held := exists e <- es :: (e.status == Pending || e.status == Executing) && e.resource == resource;
            && (r == Err(DuplicateIntentId) <==> pending)
            && (r == Err(ResourceHeld) <==> !pending && held)
            && (r == Err(TableFull) <==> !pending && !held && |es| >= 256)
            && out == (if r.Ok? then es + [Entry(id, resource, Pending, now)] else es)
  {
    assert forall e: Entry :: e.PendingAs(id) <==> e.status == Pending && e.intentId == id;
    assert forall e: Entry :: e.Live() <==> e.status == Pending || e.status == Executing;
  }

  // Execution begins exactly from pending, and moves nothing else.
  lemma BeginIff(es: seq<Entry>, idx: nat)
    ensures var (r, out) := BeginExecuting(es, idx);
            && (r.Ok? <==> idx < |es| && es[idx].status == Pending)
            && |out| == |es|
            && forall k :: 0 <= k < |es| ==>
                 out[k] == if k == idx && es[k].status == Pending then es[k].(status := Executing) else es[k]
  {
  }

  // ---------- the locks ----------

  predicate Apart(e: Entry, f: Entry) {
    && e.resource != f.resource
    && (e.status == Pending && f.status == Pending ==> e.intentId != f.intentId)
  }

  ghost predicate PairwiseApart(es: seq<Entry>) {
    forall i, j :: 0 <= i < j < |es| ==> Apart(es[i], es[j])
  }

  // Every entry is live, no two hold the same resource, and an id is pending at most once.
  ghost predicate Locks(es: seq<Entry>) {
    (forall e <- es :: e.Live()) && PairwiseApart(es)
  }

  lemma {:induction false} CompactKeepsApart(es: seq<Entry>)
    requires PairwiseApart(es)
    ensures Locks(Compact(es))
  {
    if es != [] {
      var rest := es[1..];
      CompactKeepsApart(rest);
      if es[0].Live() {
        forall e | e in Compact(rest) ensures Apart(es[0], e) {
          var k :| 0 <= k < |rest| && rest[k] == e;
          assert es[k + 1] == e;
        }
      }
    }
  }

  lemma AdmitKeepsLocks(es: seq<Entry>, id: bytes, resource: bytes, now: u64)
    requires Locks(es)
    ensures Locks(Admit(es, id, resource, now).1)
  {
    forall e | e in es ensures Admit(es, id, resource, now).0.Ok? ==> Apart(e, Entry(id, resource, Pending, now)) {
      assert !e.PendingAs(id) || Admit(es, id, resource, now).0.Err?;
    }
  }

  lemma BeginKeepsLocks(es: seq<Entry>, idx: nat)
    requires Locks(es)
    ensures Locks(BeginExecuting(es, idx).1)
  {
  }

  lemma RefusalKeepsLocks(es: seq<Entry>, id: bytes)
    requires Locks(es)
    ensures Locks(ApplyRefusal(es, id).1)
  {
    var i := FirstPending(es, id);
    if i.Some? {
      var marked := es[i.value := es[i.value].(status := Refused)];
      CompactKeepsApart(marked);
    }
  }

  lemma ExpiryKeepsLocks(es: seq<Entry>, now: u64)
    requires Locks(es)
    ensures Locks(ExpireTimeouts(es, now).1)
  {
    var marked := MarkAll(es, now);
    CompactKeepsApart(marked);
  }

  // A refusal removes exactly the pending entry it names and releases its lock; nothing else moves.
  lemma RefusalReleases(es: seq<Entry>, id: bytes)
    requires Locks(es)
    ensures var (outcome, out) := ApplyRefusal(es, id);
            && (outcome == Rejected <==> exists e <- es :: e.status == Pending && e.intentId == id)
            && (forall e :: e in out <==> e in es && !(e.status == Pending && e.intentId == id))
  {
    assert forall e: Entry :: e.PendingAs(id) <==> e.status == Pending && e.intentId == id;
    var i := FirstPending(es, id);
    if i.Some? {
      var marked := es[i.value := es[i.value].(status := Refused)];
      forall e ensures e in marked && e.Live() <==> e in es && !e.PendingAs(id) {
        if e in es && !e.PendingAs(id) {
          var k :| 0 <= k < |es| && es[k] == e;
          assert marked[k] == e;
        }
      }
    } else {
      forall e | e in es ensures !e.PendingAs(id) {
      }
    }
  }

  // A sweep removes exactly the pending entries past their time; executing ones stay.
  lemma {:induction false} CountPositive(es: seq<Entry>, now: u64)
    ensures CountTimedOut(es, now) > 0 <==> exists e <- es :: e.TimedOut(now)
  {
    if es != [] {
      CountPositive(es[..|es| - 1], now);
      assert es == es[..|es| - 1] + [es[|es| - 1]];
    }
  }

  lemma SweepRemovesTimedOut(es: seq<Entry>, now: u64)
    requires Locks(es)
    ensures forall e :: e in ExpireTimeouts(es, now).1 <==>
              e in es && !(e.status == Pending && now > e.admittedMs + 900_000)
  {
    assert forall e: Entry :: e.TimedOut(now) <==> e.status == Pending && now > e.admittedMs + 900_000;
    CountPositive(es, now);
    var marked := MarkAll(es, now);
    forall e ensures e in marked && e.Live() <==> e in es && !e.TimedOut(now) {
      if e in es && !e.TimedOut(now) {
        var k :| 0 <= k < |es| && es[k] == e;
        assert marked[k] == e;
      }
      if e in marked && e.Live() {
        var k :| 0 <= k < |marked| && marked[k] == e;
        assert marked[k] == Mark(es[k], now);
      }
    }
  }

  // ---------- the table object ----------

  class Table {
    var entries: seq<Entry>

    constructor ()
      ensures entries == []
    {
      entries := [];
    }

    method AdmitIntent(id: bytes, resource: bytes, now: u64) returns (r: Result<(), IntentError>)
      requires |resource| <= MAX_RESOURCE
      modifies this
      ensures (r, entries) == Admit(old(entries), id, resource, now)
    {
      if exists e <- entries :: e.status == Pending && e.intentId == id {
        assert exists e <- entries :: e.PendingAs(id);
        return Err(DuplicateIntentId);
      }
      if exists e <- entries :: (e.status == Pending || e.status == Executing) && e.resource == resource {
        assert exists e <- entries :: e.Live() && e.resource == resource;
        return Err(ResourceHeld);
      }
      if |entries| >= MAX_PENDING {
        return Err(TableFull);
      }
      entries := entries + [Entry(id, resource, Pending, now)];
      return Ok(());
    }

    method MatchForGrant(id: bytes) returns (r: Option<nat>)
      ensures r == FirstPending(entries, id)
    {
      for i := 0 to |entries|
        invariant forall k :: 0 <= k < i ==> !entries[k].PendingAs(id)
      {
        if entries[i].status == Pending && entries[i].intentId == id {
          assert entries[i] in entries && FirstPending(entries, id).Some?;
          assert FirstPending(entries, id).value == i;
          return Some(i);
        }
      }
      return None;
    }

    method Begin(idx: nat) returns (r: Result<(), IntentError>)
      modifies this
      ensures (r, entries) == BeginExecuting(old(entries), idx)
    {
      if idx < |entries| && entries[idx].status == Pending {
        entries := entries[idx := entries[idx].(status := Executing)];
        return Ok(());
      }
      return Err(NotPending);
    }

    method Refuse(id: bytes) returns (r: RefusalOutcome)
      modifies this
      ensures (r, entries) == ApplyRefusal(old(entries), id)
    {
      var idx := MatchForGrant(id);
      match idx {
        case Some(i) =>
          entries := entries[i := entries[i].(status := Refused)];
          entries := Compact(entries);
          return Rejected;
        case None =>
          return NoMatch;
      }
    }

    // The sums admittedMs + T_PENDING_MS must not overflow.
    method Sweep(now: u64) returns (collapsed: nat)
      requires forall e <- entries :: e.admittedMs + T_PENDING_MS <= U64_MAX
      modifies this
      ensures (collapsed, entries) == ExpireTimeouts(old(entries), now)
    {
      ghost var before := entries;
      collapsed := 0;
      for i := 0 to |entries|
        invariant |entries| == |before|
        invariant forall k :: 0 <= k < i ==> entries[k] == Mark(before[k], now)
        invariant forall k :: i <= k < |entries| ==> entries[k] == before[k]
        invariant collapsed == CountTimedOut(before[..i], now)
      {
        assert before[..i + 1][..i] == before[..i];
        if entries[i].status == Pending && now > entries[i].admittedMs + T_PENDING_MS {
          entries := entries[i := entries[i].(status := Expired)];
          collapsed := collapsed + 1;
        }
      }
      assert before[..|before|] == before;
      assert entries == MarkAll(before, now);
      if collapsed > 0 {
        entries := Compact(entries);
      } else {
        NothingTimedOut(before, now);
      }
    }
  }

  lemma NothingTimedOut(es: seq<Entry>, now: u64)
    requires CountTimedOut(es, now) == 0
    ensures MarkAll(es, now) == es
  {
    CountPositive(es, now);
    forall k | 0 <= k < |es| ensures Mark(es[k], now) == es[k] {
      assert es[k] in es;
    }
  }
}
