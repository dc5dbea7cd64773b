/** Fragment accounting: which fragments of which messages have been seen, how many bytes they
    hold, and when a message is complete. No payload is stored. */
module Reassembly {
  import opened Base
  import opened Collections
  import opened Words

  const MAX_MESSAGE := 1048576
  const MEMORY_PER_PEER := 8388608
  const INCOMPLETE_TIMEOUT_MS := 30_000
  const BITMAP_WORDS := 16
  const BITMAP_BITS := 1024

  datatype PeerEvent = Complete | Partial | Duplicate | MessageDropped

  // ---------- the peer as a value ----------

  // A reassembly context: nothing, or a message with the fragment indices accepted so far.
  datatype Slot = Free | Busy(msgId: u64, total: u16, seen: set<nat>, held: nat, updated: u64) {
    function Bytes(): nat {
      if Busy? then held else 0
    }

    predicate IsFor(id: u64) {
      Busy? && msgId == id
    }
  }

  function BytesIn(slots: seq<Slot>): nat {
    if slots == [] then 0 else BytesIn(slots[..|slots| - 1]) + slots[|slots| - 1].Bytes()
  }

  function ActiveIn(slots: seq<Slot>): (n: nat)
    ensures n <= |slots|
  {
    if slots == [] then 0 else ActiveIn(slots[..|slots| - 1]) + (if slots[|slots| - 1].Busy? then 1 else 0)
  }

  // The first slot in use for the message.
  function FindMessage(slots: seq<Slot>, id: u64): (r: Option<nat>)
    ensures r.Some? ==> r.value < |slots| && slots[r.value].IsFor(id)
                        && forall k :: 0 <= k < r.value ==> !slots[k].IsFor(id)
    ensures r.None? <==> forall k :: 0 <= k < |slots| ==> !slots[k].IsFor(id)
  {
    if slots == [] then None
    else match FindMessage(slots[..|slots| - 1], id)
      case Some(i) => Some(i)
      case None => if slots[|slots| - 1].IsFor(id) then Some(|slots| - 1) else None
  }

  function FindFree(slots: seq<Slot>): (r: Option<nat>)
    ensures r.Some? ==> r.value < |slots| && slots[r.value].Free?
                        && forall k :: 0 <= k < r.value ==> slots[k].Busy?
    ensures r.None? <==> forall k :: 0 <= k < |slots| ==> slots[k].Busy?
  {
    if slots == [] then None
    else match FindFree(slots[..|slots| - 1])
      case Some(i) => Some(i)
      case None => if slots[|slots| - 1].Free? then Some(|slots| - 1) else None
  }

  // The fragment joins slot i, already allocated to its message.
  function Join(slots: seq<Slot>, i: nat, index: u16, fragBytes: nat, now: u64): (PeerEvent, seq<Slot>)
    requires i < |slots| && slots[i].Busy?
  {
    var s := slots[i];
    if index in s.seen then (Duplicate, slots)
    else if s.held + fragBytes > MAX_MESSAGE || BytesIn(slots) + fragBytes > MEMORY_PER_PEER then
      (MessageDropped, slots[i := Free])
    else if |s.seen| + 1 >= s.total then (Complete, slots[i := Free])
    else (Partial, slots[i := Busy(s.msgId, s.total, s.seen + {index as nat}, s.held + fragBytes, now)])
  }

  // One authenticated fragment.
  function Ingest(slots: seq<Slot>, maxFragments: u16, now: u64, id: u64, index: u16, total: u16, fragBytes: nat)
    : (PeerEvent, seq<Slot>)
  {
    if total == 0 || index >= total || total > maxFragments then (MessageDropped, slots) else
    match FindMessage(slots, id)
    case Some(i) =>
      if slots[i].total != total then (MessageDropped, slots[i := Free])
      else Join(slots, i, index, fragBytes, now)
    case None =>
      match FindFree(slots)
      case None => (MessageDropped, slots)
      case Some(i) => Join(slots[i := Busy(id, total, {}, 0, now)], i, index, fragBytes, now)
  }

  // A context is past its time, on a clock that wraps.
  predicate Stale(s: Slot, now: u64) {
    s.Busy? && (now - s.updated) % 0x1_0000_0000_0000_0000 >= INCOMPLETE_TIMEOUT_MS
  }

  function Evict(slots: seq<Slot>, now: u64): seq<Slot> {
    seq(|slots|, i requires 0 <= i < |slots| => if Stale(slots[i], now) then Free else slots[i])
  }

  // ---------- what every run keeps ----------

  // Within the limits: a message under way is incomplete, its fragments are in range.
  predicate SlotOk(s: Slot, maxFragments: u16) {
    s.Busy? ==>
      && s.total <= maxFragments
      && |s.seen| < s.total
      && s.held <= MAX_MESSAGE
      && forall x <- s.seen :: x < s.total
  }

  ghost predicate Inv(slots: seq<Slot>, maxFragments: u16) {
    && (forall i :: 0 <= i < |slots| ==> SlotOk(slots[i], maxFragments))
    && (forall i, j :: 0 <= i < j < |slots| && slots[i].Busy? && slots[j].Busy? ==> slots[i].msgId != slots[j].msgId)
    && BytesIn(slots) <= MEMORY_PER_PEER
  }

  lemma {:induction false} BytesAfterUpdate(slots: seq<Slot>, i: nat, s: Slot)
    requires i < |slots|
    ensures BytesIn(slots[i := s]) == BytesIn(slots) - slots[i].Bytes() + s.Bytes()
    ensures slots[i].Bytes() <= BytesIn(slots)
  {
    var last := |slots| - 1;
    if i < last {
      BytesAfterUpdate(slots[..last], i, s);
      assert slots[i := s][..last] == slots[..last][i := s];
    } else {
      assert slots[i := s][..last] == slots[..last];
    }
  }

  lemma {:induction false} ActiveAfterUpdate(slots: seq<Slot>, i: nat, s: Slot)
    requires i < |slots|
    ensures ActiveIn(slots[i := s]) == ActiveIn(slots) - (if slots[i].Busy? then 1 else 0) + (if s.Busy? then 1 else 0)
    ensures slots[i].Busy? ==> ActiveIn(slots) >= 1
  {
    var last := |slots| - 1;
    if i < last {
      ActiveAfterUpdate(slots[..last], i, s);
      assert slots[i := s][..last] == slots[..last][i := s];
    } else {
      assert slots[i := s][..last] == slots[..last];
    }
  }

  lemma JoinKeepsInv(slots: seq<Slot>, maxFragments: u16, i: nat, index: u16, fragBytes: nat, now: u64)
    requires Inv(slots, maxFragments) && i < |slots| && slots[i].Busy? && index < slots[i].total
    ensures Inv(Join(slots, i, index, fragBytes, now).1, maxFragments)
  {
    var s := slots[i];
    BytesAfterUpdate(slots, i, Free);
    BytesAfterUpdate(slots, i, Busy(s.msgId, s.total, s.seen + {index as nat}, s.held + fragBytes, now));
  }

  lemma IngestKeepsInv(slots: seq<Slot>, maxFragments: u16, now: u64, id: u64, index: u16, total: u16, fragBytes: nat)
    requires Inv(slots, maxFragments)
    ensures Inv(Ingest(slots, maxFragments, now, id, index, total, fragBytes).1, maxFragments)
  {
    if !(total == 0 || index >= total || total > maxFragments) {
      match FindMessage(slots, id)
      case Some(i) =>
        if slots[i].total != total {
          BytesAfterUpdate(slots, i, Free);
        } else {
          JoinKeepsInv(slots, maxFragments, i, index, fragBytes, now);
        }
      case None =>
        match FindFree(slots)
        case None =>
        case Some(i) =>
          var begun := slots[i := Busy(id, total, {}, 0, now)];
          BytesAfterUpdate(slots, i, Busy(id, total, {}, 0, now));
          JoinKeepsInv(begun, maxFragments, i, index, fragBytes, now);
    }
  }

  lemma {:induction false} EvictShrinks(slots: seq<Slot>, now: u64)
    ensures BytesIn(Evict(slots, now)) <= BytesIn(slots)
  {
    if slots != [] {
      var init := slots[..|slots| - 1];
      EvictShrinks(init, now);
      assert Evict(slots, now)[..|slots| - 1] == Evict(init, now);
    }
  }

  lemma EvictKeepsInv(slots: seq<Slot>, maxFragments: u16, now: u64)
    requires Inv(slots, maxFragments)
    ensures Inv(Evict(slots, now), maxFragments)
  {
    EvictShrinks(slots, now);
  }

  // ---------- completion ----------

  // The indices of a message of this many fragments.
  ghost function All(total: u16): set<nat> {
    Below(total)
  }

  // The fragments of a message seen so far, and their bytes: none before its context begins.
  function SeenOf(slots: seq<Slot>, id: u64): set<nat> {
    match FindMessage(slots, id)
    case Some(i) => slots[i].seen
    case None => {}
  }

  function HeldOf(slots: seq<Slot>, id: u64): nat {
    match FindMessage(slots, id)
    case Some(i) => slots[i].held
    case None => 0
  }

  // The fragment has a context to go to, of its own total or a new one, and fits the budgets.
  predicate HasRoom(slots: seq<Slot>, id: u64, total: u16, fragBytes: nat) {
    && (match FindMessage(slots, id)
        case Some(i) => slots[i].total == total
        case None => FindFree(slots).Some?)
    && HeldOf(slots, id) + fragBytes <= MAX_MESSAGE && BytesIn(slots) + fragBytes <= MEMORY_PER_PEER
  }

  // Complete is the answer exactly to a well-formed fragment that has room, has not been seen, and was the
  // only one missing.
  lemma CompleteIffAllSeen(slots: seq<Slot>, maxFragments: u16, now: u64, id: u64, index: u16, total: u16,
                          fragBytes: nat)
    requires Inv(slots, maxFragments)
    ensures Ingest(slots, maxFragments, now, id, index, total, fragBytes).0 == Complete <==>
            && index < total <= maxFragments && HasRoom(slots, id, total, fragBytes)
            && index !in SeenOf(slots, id) && SeenOf(slots, id) + {index as nat} == All(total)
  {
    if index < total <= maxFragments {
      match FindMessage(slots, id)
      case Some(i) =>
        if slots[i].total == total {
          LastMissing(slots[i].seen, index, total);
        }
      case None =>
        LastMissing({}, index, total);
        if FindFree(slots).Some? {
          BytesAfterUpdate(slots, FindFree(slots).value, Busy(id, total, {}, 0, now));
        }
    }
  }

  // Contexts of other messages are as they were.
  ghost predicate OthersKept(slots: seq<Slot>, after: seq<Slot>, id: u64) {
    && |after| == |slots|
    && forall k :: 0 <= k < |slots| && slots[k].Busy? && slots[k].msgId != id ==> after[k] == slots[k]
  }

  // The message's one context holds these fragments and bytes, last touched now.
  ghost predicate Holding(slots: seq<Slot>, id: u64, total: u16, seen: set<nat>, held: nat, now: u64) {
    exists i :: 0 <= i < |slots| && slots[i] == Busy(id, total, seen, held, now)
  }

  // What becomes of a fragment that has reached its message's context.
  ghost predicate Joined(slots: seq<Slot>, ev: PeerEvent, after: seq<Slot>, id: u64, index: u16, total: u16,
                         seen: set<nat>, held: nat, fragBytes: nat, now: u64)
  {
    if held + fragBytes > 1_048_576 || BytesIn(slots) + fragBytes > 8_388_608 then
      ev == MessageDropped && FindMessage(after, id).None?
    else if seen + {index as nat} == All(total) then
      ev == Complete && FindMessage(after, id).None?
    else
      ev == Partial && Holding(after, id, total, seen + {index as nat}, held + fragBytes, now)
  }

  lemma JoinOutcome(slots: seq<Slot>, maxFragments: u16, i: nat, index: u16, fragBytes: nat, now: u64)
    requires Inv(slots, maxFragments) && i < |slots| && slots[i].Busy?
    requires index < slots[i].total && index !in slots[i].seen
    ensures var (ev, after) := Join(slots, i, index, fragBytes, now);
            var s := slots[i];
            Joined(slots, ev, after, s.msgId, index, s.total, s.seen, s.held, fragBytes, now)
  {
    var s := slots[i];
    LastMissing(s.seen, index, s.total);
    GivenUp(slots, maxFragments, i, s.msgId);
    var after := Join(slots, i, index, fragBytes, now).1;
    assert after[i].Busy? ==> after[i] == Busy(s.msgId, s.total, s.seen + {index as nat}, s.held + fragBytes, now);
  }

  // What every fragment does. Malformed, seen before, or first of a message for which there is no context: nothing.
  // Of the wrong total or over a byte limit: its message is given up. Else it counts, as the last one missing or one
  // of several. No other message is touched.
  lemma FragmentOutcome(slots: seq<Slot>, maxFragments: u16, now: u64, id: u64, index: u16, total: u16, fragBytes: nat)
    requires Inv(slots, maxFragments)
    ensures var (ev, after) := Ingest(slots, maxFragments, now, id, index, total, fragBytes);
            var own := FindMessage(slots, id);
            && OthersKept(slots, after, id)
            && if !(index < total <= maxFragments) || (own.None? && FindFree(slots).None?) then
                 ev == MessageDropped && after == slots
               else if own.Some? && slots[own.value].total != total then
                 ev == MessageDropped && FindMessage(after, id).None?
               else if index in SeenOf(slots, id) then
                 ev == Duplicate && after == slots
               else
                 Joined(slots, ev, after, id, index, total, SeenOf(slots, id), HeldOf(slots, id), fragBytes, now)
  {
    hide Joined;
    if index < total <= maxFragments {
      match FindMessage(slots, id)
      case Some(i) =>
        if slots[i].total != total {
          GivenUp(slots, maxFragments, i, id);
        } else if index !in slots[i].seen {
          JoinOutcome(slots, maxFragments, i, index, fragBytes, now);
        }
      case None =>
        if FindFree(slots).Some? {
          FirstFragment(slots, maxFragments, FindFree(slots).value, id, index, total, fragBytes, now);
        }
    }
  }

  lemma FirstFragment(slots: seq<Slot>, maxFragments: u16, i: nat, id: u64, index: u16, total: u16, fragBytes: nat,
                      now: u64)
    requires Inv(slots, maxFragments) && i < |slots| && slots[i].Free? && FindMessage(slots, id).None?
    requires index < total <= maxFragments
    ensures var (ev, after) := Join(slots[i := Busy(id, total, {}, 0, now)], i, index, fragBytes, now);
            Joined(slots, ev, after, id, index, total, {}, 0, fragBytes, now)
  {
    var begun := slots[i := Busy(id, total, {}, 0, now)];
    BytesAfterUpdate(slots, i, Busy(id, total, {}, 0, now));
    JoinOutcome(begun, maxFragments, i, index, fragBytes, now);
    hide Join, All, Holding, FindMessage;
  }

  lemma GivenUp(slots: seq<Slot>, maxFragments: u16, i: nat, id: u64)
    requires Inv(slots, maxFragments) && i < |slots| && slots[i].IsFor(id)
    ensures FindMessage(slots[i := Free], id).None?
  {
  }

  // Eviction frees exactly the contexts untouched for thirty seconds, on a clock that may have wrapped since.
  lemma EvictsIff(slots: seq<Slot>, now: u64, i: nat)
    requires i < |slots|
    ensures |Evict(slots, now)| == |slots|
    ensures var s := slots[i];
            Evict(slots, now)[i]
            == if s.Busy? && (if now >= s.updated then now - s.updated >= 30_000
                              else now + 0x1_0000_0000_0000_0000 - s.updated >= 30_000)
               then Free else s
  {
  }

  // Counting to the total is seeing all of it.
  lemma LastMissing(seen: set<nat>, index: u16, total: u16)
    requires index < total && forall x <- seen :: x < total
    ensures index !in seen ==> (|seen| + 1 >= total <==> seen + {index as nat} == All(total))
  {
    var grown := seen + {index as nat};
    SubsetCount(grown, All(total));
    if index !in seen && |seen| + 1 >= total {
      SameSize(grown, All(total));
    }
  }

  lemma SameSize(a: set<nat>, b: set<nat>)
    requires a <= b && |a| >= |b|
    ensures a == b
  {
    assert b == a + (b - a);
    assert |b| == |a| + |b - a|;
  }

  // A one-fragment message completes at once if it fits and a context is free.
  lemma SingleFragment(slots: seq<Slot>, maxFragments: u16, now: u64, id: u64, fragBytes: nat)
    requires Inv(slots, maxFragments) && maxFragments >= 1 && FindMessage(slots, id).None?
    ensures Ingest(slots, maxFragments, now, id, 0, 1, fragBytes).0 == Complete <==>
            FindFree(slots).Some? && fragBytes <= MAX_MESSAGE && BytesIn(slots) + fragBytes <= MEMORY_PER_PEER
  {
    if FindFree(slots).Some? {
      BytesAfterUpdate(slots, FindFree(slots).value, Busy(id, 1, {}, 0, now));
    }
  }

  // ---------- runs ----------

  datatype Input = Fragment(now: u64, id: u64, index: u16, total: u16, fragBytes: nat) | Tick(now: u64)

  function Apply(slots: seq<Slot>, maxFragments: u16, x: Input): seq<Slot> {
    match x
    case Fragment(now, id, index, total, fragBytes) => Ingest(slots, maxFragments, now, id, index, total, fragBytes).1
    case Tick(now) => Evict(slots, now)
  }

  function ApplyAll(slots: seq<Slot>, maxFragments: u16, xs: seq<Input>): seq<Slot>
    decreases xs
  {
    if xs == [] then slots else ApplyAll(Apply(slots, maxFragments, xs[0]), maxFragments, xs[1..])
  }

  lemma {:induction false} RunKeepsInv(slots: seq<Slot>, maxFragments: u16, xs: seq<Input>)
    requires Inv(slots, maxFragments)
    ensures Inv(ApplyAll(slots, maxFragments, xs), maxFragments)
    decreases xs
  {
    if xs != [] {
      match xs[0] {
        case Fragment(now, id, index, total, fragBytes) =>
          IngestKeepsInv(slots, maxFragments, now, id, index, total, fragBytes);
        case Tick(now) =>
          EvictKeepsInv(slots, maxFragments, now);
      }
      RunKeepsInv(Apply(slots, maxFragments, xs[0]), maxFragments, xs[1..]);
    }
  }

  // ---------- completion over a run ----------

  // The indices of a message's fragments accepted since its context began, after one more input.
  ghost function AcceptedNext(slots: seq<Slot>, accepted: seq<nat>, maxFragments: u16, x: Input, id: u64): seq<nat> {
    if x.Fragment? && x.id == id
       && Ingest(slots, maxFragments, x.now, x.id, x.index, x.total, x.fragBytes).0 == Partial
    then accepted + [x.index]
    else if FindMessage(Apply(slots, maxFragments, x), id).None? then []
    else accepted
  }

  ghost function Accepted(slots: seq<Slot>, accepted: seq<nat>, maxFragments: u16, xs: seq<Input>, id: u64): seq<nat>
    decreases xs
  {
    if xs == [] then accepted
    else Accepted(Apply(slots, maxFragments, xs[0]), AcceptedNext(slots, accepted, maxFragments, xs[0], id),
                  maxFragments, xs[1..], id)
  }

  // The list has what the context has seen, each index once.
  ghost predicate Recounts(slots: seq<Slot>, id: u64, accepted: seq<nat>) {
    Distinct(accepted) && forall v: nat :: v in accepted <==> v in SeenOf(slots, id)
  }

  // A message has one context.
  lemma OneContext(slots: seq<Slot>, maxFragments: u16, id: u64, i: nat)
    requires Inv(slots, maxFragments) && i < |slots| && slots[i].IsFor(id)
    ensures FindMessage(slots, id) == Some(i)
  {
  }

  lemma OthersUntouched(slots: seq<Slot>, after: seq<Slot>, maxFragments: u16, i: nat, id: u64)
    requires Inv(slots, maxFragments) && Inv(after, maxFragments)
    requires i < |slots| == |after| && after == slots[i := after[i]]
    requires !slots[i].IsFor(id) && !after[i].IsFor(id)
    ensures SeenOf(after, id) == SeenOf(slots, id)
  {
    match FindMessage(slots, id)
    case Some(k) => OneContext(after, maxFragments, id, k);
    case None =>
      assert forall k :: 0 <= k < |after| ==> !after[k].IsFor(id);
  }

  // A fragment changes one context at most: its own message's.
  lemma OneSlotChanges(slots: seq<Slot>, maxFragments: u16, now: u64, id: u64, index: u16, total: u16, fragBytes: nat)
    returns (i: nat)
    requires Inv(slots, maxFragments)
    ensures var (ev, after) := Ingest(slots, maxFragments, now, id, index, total, fragBytes);
            && |after| == |slots|
            && (after == slots || (i < |slots| && after == slots[i := after[i]]
                                   && (slots[i].Free? || slots[i].IsFor(id)) && (after[i].Free? || after[i].IsFor(id))))
            && (ev == Partial ==>
                  && i < |slots| && after[i].IsFor(id) && index !in SeenOf(slots, id)
                  && after[i].seen == SeenOf(slots, id) + {index as nat})
            && (ev != Partial && after != slots ==> after[i].Free?)
  {
    i := match FindMessage(slots, id)
         case Some(k) => k
         case None => match FindFree(slots) case Some(k) => k case None => 0;
  }

  lemma FragmentRecounts(slots: seq<Slot>, accepted: seq<nat>, maxFragments: u16, x: Input, id: u64)
    requires Inv(slots, maxFragments) && Recounts(slots, id, accepted) && x.Fragment?
    ensures Recounts(Apply(slots, maxFragments, x), id, AcceptedNext(slots, accepted, maxFragments, x, id))
  {
    IngestKeepsInv(slots, maxFragments, x.now, x.id, x.index, x.total, x.fragBytes);
    var (ev, after) := Ingest(slots, maxFragments, x.now, x.id, x.index, x.total, x.fragBytes);
    var i := OneSlotChanges(slots, maxFragments, x.now, x.id, x.index, x.total, x.fragBytes);
    hide Ingest, Inv, BytesIn, FindMessage;
    if x.id != id {
      if after != slots {
        OthersUntouched(slots, after, maxFragments, i, id);
      }
    } else if ev == Partial {
      OneContext(after, maxFragments, id, i);
    } else if after != slots {
      assert slots[i].IsFor(id);
      Dropped(slots, after, maxFragments, i, id);
    }
  }

  // Clearing the slot of a message leaves the message without a context.
  lemma Dropped(slots: seq<Slot>, after: seq<Slot>, maxFragments: u16, i: nat, id: u64)
    requires Inv(slots, maxFragments) && i < |slots| && after == slots[i := Free]
    requires slots[i].IsFor(id)
    ensures FindMessage(after, id).None?
  {
    OneContext(slots, maxFragments, id, i);
    assert forall k :: 0 <= k < |after| ==> !after[k].IsFor(id);
  }
  lemma TickRecounts(slots: seq<Slot>, accepted: seq<nat>, maxFragments: u16, now: u64, id: u64)
    requires Inv(slots, maxFragments) && Recounts(slots, id, accepted)
    ensures Recounts(Evict(slots, now), id, AcceptedNext(slots, accepted, maxFragments, Tick(now), id))
  {
    var after := Evict(slots, now);
    EvictKeepsInv(slots, maxFragments, now);
    if FindMessage(after, id).Some? {
      OneContext(slots, maxFragments, id, FindMessage(after, id).value);
    }
  }

  lemma {:induction false} RunRecounts(slots: seq<Slot>, accepted: seq<nat>, maxFragments: u16, xs: seq<Input>, id: u64)
    requires Inv(slots, maxFragments) && Recounts(slots, id, accepted)
    ensures Inv(ApplyAll(slots, maxFragments, xs), maxFragments)
    ensures Recounts(ApplyAll(slots, maxFragments, xs), id, Accepted(slots, accepted, maxFragments, xs, id))
    decreases xs
  {
    hide Inv, Ingest, Evict, Recounts, AcceptedNext;
    if xs != [] {
      match xs[0] {
        case Fragment(now, x, index, total, fragBytes) =>
          IngestKeepsInv(slots, maxFragments, now, x, index, total, fragBytes);
          FragmentRecounts(slots, accepted, maxFragments, xs[0], id);
        case Tick(now) =>
          EvictKeepsInv(slots, maxFragments, now);
          TickRecounts(slots, accepted, maxFragments, now, id);
      }
      RunRecounts(Apply(slots, maxFragments, xs[0]), AcceptedNext(slots, accepted, maxFragments, xs[0], id),
                  maxFragments, xs[1..], id);
    }
  }

  function Empty(n: nat): (slots: seq<Slot>)
    ensures |slots| == n
  {
    seq(n, _ => Free)
  }

  // Each index below the total, once, in some order.
  ghost predicate Permutes(p: seq<nat>, total: nat) {
    |p| == total && Distinct(p) && forall v <- p :: v < total
  }

  lemma PermutesIs(q: seq<nat>, total: u16)
    requires Distinct(q)
    ensures Permutes(q, total) <==> (set v <- q) == All(total)
  {
    var members := set v <- q;
    DistinctCount(q);
    if Permutes(q, total) {
      SameSize(members, All(total));
    }
    if members == All(total) {
      assert forall v <- q :: v in members;
    }
  }

  lemma PermutesIffAll(p: seq<nat>, index: nat, total: u16)
    requires Distinct(p) && index < total
    ensures Permutes(p + [index], total) <==> index !in p && (set v <- p) + {index} == All(total)
  {
    var q := p + [index];
    assert q[|p|] == index && forall k :: 0 <= k < |p| ==> q[k] == p[k];
    if index in p {
      assert !Distinct(q);
    } else {
      assert (set v <- q) == (set v <- p) + {index};
      PermutesIs(q, total);
    }
  }

  // Over every run from an empty peer: a fragment completes its message exactly when it is well formed and has
  // room, and together with the fragments of that message accepted since its context began it makes each of
  // the indices 0 to total - 1, each accepted once.
  lemma CompletesIffPermutation(n: nat, maxFragments: u16, xs: seq<Input>, x: Input)
    requires x.Fragment?
    ensures var slots := ApplyAll(Empty(n), maxFragments, xs);
            Ingest(slots, maxFragments, x.now, x.id, x.index, x.total, x.fragBytes).0 == Complete <==>
              && x.index < x.total <= maxFragments && HasRoom(slots, x.id, x.total, x.fragBytes)
              && Permutes(Accepted(Empty(n), [], maxFragments, xs, x.id) + [x.index], x.total)
  {
    EmptyHolds(n, maxFragments, x.id);
    RunRecounts(Empty(n), [], maxFragments, xs, x.id);
    var slots, accepted := ApplyAll(Empty(n), maxFragments, xs), Accepted(Empty(n), [], maxFragments, xs, x.id);
    CompleteIffAllSeen(slots, maxFragments, x.now, x.id, x.index, x.total, x.fragBytes);
    if x.index < x.total {
      PermutesIffAll(accepted, x.index, x.total);
      assert (set v <- accepted) == SeenOf(slots, x.id);
    }
    hide Inv, Ingest, ApplyAll, Accepted, HasRoom, SeenOf, Permutes;
  }

  lemma EmptyHolds(n: nat, maxFragments: u16, id: u64)
    ensures Inv(Empty(n), maxFragments) && Recounts(Empty(n), id, [])
  {
    NothingIn(Empty(n));
  }

  // ---------- bitmaps ----------

  predicate BitAt(seen: seq<u64>, i: nat)
    requires |seen| == BITMAP_WORDS && i < BITMAP_BITS
  {
    Bit(seen[i / WORD_BITS], i % WORD_BITS)
  }

  // The bitmap lists exactly these indices.
  ghost predicate Lists(seen: seq<u64>, indices: set<nat>) {
    && |seen| == BITMAP_WORDS
    && (forall x <- indices :: x < BITMAP_BITS)
    && forall i: nat :: i < BITMAP_BITS ==> (BitAt(seen, i) <==> i in indices)
  }

  lemma EmptyLists(seen: seq<u64>)
    requires |seen| == BITMAP_WORDS && forall k :: 0 <= k < BITMAP_WORDS ==> seen[k] == 0
    ensures Lists(seen, {})
  {
    forall i: nat | i < BITMAP_BITS ensures !BitAt(seen, i) {
      BitZero(i % WORD_BITS);
    }
  }

  lemma MarkLists(seen: seq<u64>, indices: set<nat>, x: nat)
    requires Lists(seen, indices) && x < BITMAP_BITS
    ensures Lists(seen[x / WORD_BITS := Or(seen[x / WORD_BITS], Mask(x % WORD_BITS))], indices + {x})
  {
    var w, b := x / WORD_BITS, x % WORD_BITS;
    var after := seen[w := Or(seen[w], Mask(b))];
    forall i: nat | i < BITMAP_BITS ensures BitAt(after, i) <==> i in indices + {x} {
      if i / WORD_BITS == w {
        BitOr(seen[w], Mask(b), i % WORD_BITS);
        BitMask(b, i % WORD_BITS);
      }
    }
  }

  function Saturating(a: nat, b: nat): nat {
    if a >= b then a - b else 0
  }

  // ---------- the reassembler object ----------

  datatype Context = Context(
    msgId: u64, total: u16, received: nat, held: nat, updatedMs: u64, inUse: bool, seen: seq<u64>)

  class PeerReassembler {
    const maxFragments: u16
    const contexts: array<Context>
    var active: nat
    var bytesUsed: nat
    ghost var slots: seq<Slot>

    // A context in use stands for its slot: the bitmap lists the indices, `received` counts them.
    static ghost predicate Stands(c: Context, s: Slot) {
      && (c.inUse <==> s.Busy?)
      && (s.Busy? ==>
            && c.msgId == s.msgId && c.total == s.total && c.held == s.held && c.updatedMs == s.updated
            && c.received == |s.seen| && Lists(c.seen, s.seen))
    }

    // The accounting agrees with the slots.
    ghost predicate Tracks()
      reads this, contexts
    {
      && maxFragments <= BITMAP_BITS
      && |slots| == contexts.Length
      && (forall i :: 0 <= i < |slots| ==> Stands(contexts[i], slots[i]))
      && active == ActiveIn(slots)
      && bytesUsed == BytesIn(slots)
    }

    ghost predicate Valid()
      reads this, contexts
    {
      Tracks() && Inv(slots, maxFragments)
    }

    constructor (maxContexts: nat, maxFragments: u16)
      requires maxFragments <= BITMAP_BITS
      ensures Valid() && fresh(contexts) && this.maxFragments == maxFragments
      ensures slots == seq(maxContexts, _ => Free)
    {
      this.maxFragments := maxFragments;
      contexts := new Context[maxContexts](_ => Context(0, 0, 0, 0, 0, false, seq(BITMAP_WORDS, _ => 0)));
      active, bytesUsed := 0, 0;
      slots := seq(maxContexts, _ => Free);
      new;
      NothingIn(slots);
    }

    // Free a context, giving its bytes back; the subtraction never saturates.
    method FreeContext(i: nat)
      requires Tracks() && i < contexts.Length && contexts[i].inUse
      modifies `active, `bytesUsed, `slots, contexts
      ensures Tracks() && slots == old(slots)[i := Free]
    {
      BytesAfterUpdate(slots, i, Free);
      ActiveAfterUpdate(slots, i, Free);
      var c := contexts[i];
      bytesUsed := Saturating(bytesUsed, c.held);
      contexts[i] := c.(inUse := false);
      active := active - 1;
      slots := slots[i := Free];
    }

    method Locate(id: u64) returns (r: Option<nat>)
      requires Tracks()
      ensures r == FindMessage(slots, id)
    {
      for i := 0 to contexts.Length
        invariant forall k :: 0 <= k < i ==> !slots[k].IsFor(id)
      {
        if contexts[i].inUse && contexts[i].msgId == id {
          assert slots[i].IsFor(id);
          return Some(i);
        }
      }
      return None;
    }

    method LocateFree() returns (r: Option<nat>)
      requires Tracks()
      ensures r == FindFree(slots)
    {
      for i := 0 to contexts.Length
        invariant forall k :: 0 <= k < i ==> slots[k].Busy?
      {
        if !contexts[i].inUse {
          assert slots[i].Free?;
          return Some(i);
        }
      }
      return None;
    }

    method Allocate(i: nat, now: u64, id: u64, total: u16)
      requires Tracks() && i < contexts.Length && slots[i].Free?
      modifies `active, `slots, contexts
      ensures Tracks() && slots == old(slots)[i := Busy(id, total, {}, 0, now)]
    {
      var blank := seq(BITMAP_WORDS, _ => 0);
      EmptyLists(blank);
      BytesAfterUpdate(slots, i, Busy(id, total, {}, 0, now));
      ActiveAfterUpdate(slots, i, Busy(id, total, {}, 0, now));
      contexts[i] := Context(id, total, 0, 0, now, true, blank);
      active := active + 1;
      slots := slots[i := Busy(id, total, {}, 0, now)];
    }

    // Record an accepted fragment.
    method Accept(i: nat, index: u16, fragBytes: nat, now: u64)
      requires Tracks() && i < contexts.Length && slots[i].Busy? && index < BITMAP_BITS && index !in slots[i].seen
      modifies `bytesUsed, `slots, contexts
      ensures Tracks()
      ensures slots == var s := old(slots)[i];
                       old(slots)[i := Busy(s.msgId, s.total, s.seen + {index as nat}, s.held + fragBytes, now)]
    {
      var c := contexts[i];
      ghost var s := slots[i];
      MarkLists(c.seen, s.seen, index);
      var word, bit := index / WORD_BITS, index % WORD_BITS;
      ghost var grown := Busy(s.msgId, s.total, s.seen + {index as nat}, s.held + fragBytes, now);
      BytesAfterUpdate(slots, i, grown);
      ActiveAfterUpdate(slots, i, grown);
      contexts[i] := c.(seen := c.seen[word := Or(c.seen[word], Mask(bit))], received := c.received + 1,
                        held := c.held + fragBytes, updatedMs := now);
      bytesUsed := bytesUsed + fragBytes;
      slots := slots[i := grown];
    }

    // The fragment joins the context of its message.
    method JoinAt(idx: nat, index: u16, fragBytes: nat, now: u64) returns (ev: PeerEvent)
      requires Tracks() && idx < contexts.Length && slots[idx].Busy? && index < BITMAP_BITS
      modifies `active, `bytesUsed, `slots, contexts
      ensures Tracks() && (ev, slots) == Join(old(slots), idx, index, fragBytes, now)
    {
      var c := contexts[idx];
      assert BitAt(c.seen, index) <==> index in slots[idx].seen;
      if Bit(c.seen[index / WORD_BITS], index % WORD_BITS) {
        return Duplicate;
      }
      if c.held + fragBytes > MAX_MESSAGE || bytesUsed + fragBytes > MEMORY_PER_PEER {
        FreeContext(idx);
        return MessageDropped;
      }
      ghost var before := slots;
      Accept(idx, index, fragBytes, now);
      if contexts[idx].received >= contexts[idx].total {
        FreeContext(idx);
        assert slots == before[idx := Free];
        return Complete;
      }
      return Partial;
    }

    method IngestFragment(now: u64, id: u64, index: u16, total: u16, fragBytes: nat) returns (ev: PeerEvent)
      requires Valid()
      modifies `active, `bytesUsed, `slots, contexts
      ensures Valid()
      ensures (ev, slots) == Ingest(old(slots), maxFragments, now, id, index, total, fragBytes)
    {
      IngestKeepsInv(slots, maxFragments, now, id, index, total, fragBytes);
      if total == 0 || index >= total || total > maxFragments {
        return MessageDropped;
      }
      var found := Locate(id);
      var idx: nat;
      if found.None? {
        var free := LocateFree();
        if free.None? {
          return MessageDropped;
        }
        idx := free.value;
        Allocate(idx, now, id, total);
      } else {
        idx := found.value;
        if contexts[idx].total != total {
          FreeContext(idx);
          return MessageDropped;
        }
      }
      ev := JoinAt(idx, index, fragBytes, now);
    }

    // Free every context older than the timeout.
    method EvictExpired(now: u64)
      requires Valid()
      modifies `active, `bytesUsed, `slots, contexts
      ensures Valid() && slots == Evict(old(slots), now)
    {
      ghost var before := slots;
      for i := 0 to contexts.Length
        invariant Tracks()
        invariant forall k :: 0 <= k < i ==> slots[k] == if Stale(before[k], now) then Free else before[k]
        invariant forall k :: i <= k < |slots| ==> slots[k] == before[k]
      {
        if contexts[i].inUse {
          var age := (now - contexts[i].updatedMs) % 0x1_0000_0000_0000_0000;
          if age >= INCOMPLETE_TIMEOUT_MS {
            FreeContext(i);
          }
        }
      }
      assert slots == Evict(before, now);
      EvictKeepsInv(before, maxFragments, now);
    }
  }

  lemma {:induction false} NothingIn(slots: seq<Slot>)
    requires forall i :: 0 <= i < |slots| ==> slots[i].Free?
    ensures BytesIn(slots) == 0 && ActiveIn(slots) == 0
  {
    if slots != [] {
      NothingIn(slots[..|slots| - 1]);
    }
  }
}
