/** The store-and-forward relay: a bounded bag of packets with a lifetime, drained oldest first. */
module RelayStore {
  import opened Base

  const MAX_BODY := 2048
  const MAX_PER_RECIPIENT := 64
  const MAX_BYTES_PER_RECIPIENT := 4 * 1024 * 1024
  const TTL_MS := 120_000
  const MAX_STORED := 1024

  datatype StoreError = BodyTooLarge | RecipientQuota | StoreFull

  datatype Packet = Packet(sender: u32, recipient: bytes, body: bytes, storedAt: u64)

  type Slots = seq<Option<Packet>>

  // ---------- counting over the slots ----------

  function Tally(slots: Slots, f: Option<Packet> -> nat): nat {
    if slots == [] then 0 else Tally(slots[..|slots| - 1], f) + f(slots[|slots| - 1])
  }

  function Taken(): Option<Packet> -> nat {
    (s: Option<Packet>) => if s.Some? then 1 else 0
  }

  function TakenBy(r: bytes): Option<Packet> -> nat {
    (s: Option<Packet>) => if IsFor(s, r) then 1 else 0
  }

  function BytesOf(r: bytes): Option<Packet> -> nat {
    (s: Option<Packet>) => if IsFor(s, r) then |s.value.body| else 0
  }

  predicate IsFor(s: Option<Packet>, r: bytes) {
    s.Some? && s.value.recipient == r
  }

  // The packets held, as a bag.
  ghost function Held(slots: Slots): multiset<Packet> {
    if slots == [] then multiset{} else Held(slots[..|slots| - 1]) + One(slots[|slots| - 1])
  }

  ghost function One(s: Option<Packet>): multiset<Packet> {
    if s.Some? then multiset{s.value} else multiset{}
  }

  lemma {:induction false} TallyUpdate(slots: Slots, i: nat, s: Option<Packet>, f: Option<Packet> -> nat)
    requires i < |slots|
    ensures Tally(slots[i := s], f) == Tally(slots, f) - f(slots[i]) + f(s)
    ensures f(slots[i]) <= Tally(slots, f)
  {
    var last := |slots| - 1;
    if i < last {
      TallyUpdate(slots[..last], i, s, f);
      assert slots[i := s][..last] == slots[..last][i := s];
    } else {
      assert slots[i := s][..last] == slots[..last];
    }
  }

  // Adding the same bag on both sides.
  lemma AddBag(a: multiset<Packet>, b: multiset<Packet>, c: multiset<Packet>, d: multiset<Packet>, e: multiset<Packet>)
    requires a + b == c + d
    ensures (a + e) + b == (c + e) + d
  {
    assert (a + e) + b == (a + b) + e;
    assert (c + e) + d == (c + d) + e;
  }

  lemma {:induction false} HeldUpdate(slots: Slots, i: nat, s: Option<Packet>)
    requires i < |slots|
    ensures Held(slots[i := s]) + One(slots[i]) == Held(slots) + One(s)
  {
    hide One;
    var last := |slots| - 1;
    var after, init := slots[i := s], slots[..last];
    if i < last {
      assert after[..last] == init[i := s];
      HeldUpdate(init, i, s);
      AddBag(Held(init[i := s]), One(slots[i]), Held(init), One(s), One(slots[last]));
    } else {
      assert after[..last] == init;
      assert Held(after) == Held(init) + One(s);
      AddBag(Held(init) + One(s), multiset{}, Held(init), One(s), One(slots[i]));
    }
  }

  lemma {:induction false} HeldIsPresent(slots: Slots, p: Packet)
    ensures p in Held(slots) <==> exists i :: 0 <= i < |slots| && slots[i] == Some(p)
  {
    if slots != [] {
      var init, last := slots[..|slots| - 1], slots[|slots| - 1];
      HeldIsPresent(init, p);
      PresentInParts(init, last, slots, p);
      InSum(Held(init), One(last), p);
      InOne(last, p);
      hide One;
    }
  }

  lemma PresentInParts(init: Slots, last: Option<Packet>, slots: Slots, p: Packet)
    requires slots == init + [last]
    ensures (exists i :: 0 <= i < |slots| && slots[i] == Some(p)) <==>
              (exists i :: 0 <= i < |init| && init[i] == Some(p)) || last == Some(p)
  {
    assert slots[|init|] == last && forall i :: 0 <= i < |init| ==> slots[i] == init[i];
  }

  lemma InSum(a: multiset<Packet>, b: multiset<Packet>, p: Packet)
    ensures p in a + b <==> p in a || p in b
  {
  }

  lemma InOne(s: Option<Packet>, p: Packet)
    ensures p in One(s) <==> s == Some(p)
  {
  }

  lemma {:induction false} HeldSize(slots: Slots)
    ensures |Held(slots)| == Tally(slots, Taken())
  {
    if slots != [] {
      HeldSize(slots[..|slots| - 1]);
    }
  }

  // When some slot is free the slots are not all taken, and the other way round.
  lemma {:induction false} FullIffAllTaken(slots: Slots)
    ensures Tally(slots, Taken()) <= |slots|
    ensures Tally(slots, Taken()) == |slots| <==> forall i :: 0 <= i < |slots| ==> slots[i].Some?
  {
    if slots != [] {
      var last := |slots| - 1;
      FullIffAllTaken(slots[..last]);
      assert forall i :: 0 <= i < last ==> slots[..last][i] == slots[i];
    }
  }

  // ---------- the operations on slots ----------

  predicate Expired(p: Packet, now: u64) {
    now >= p.storedAt && now - p.storedAt >= TTL_MS
  }

  function Keep(s: Option<Packet>, now: u64): Option<Packet> {
    if s.Some? && Expired(s.value, now) then None else s
  }

  function Purge(slots: Slots, now: u64): (r: Slots)
    ensures |r| == |slots|
    ensures forall i :: 0 <= i < |slots| ==> r[i] == Keep(slots[i], now)
  {
    seq(|slots|, i requires 0 <= i < |slots| => Keep(slots[i], now))
  }

  function FirstFree(slots: Slots): (i: nat)
    ensures i <= |slots|
    ensures forall k :: 0 <= k < i ==> slots[k].Some?
    ensures i < |slots| ==> slots[i].None?
  {
    if slots == [] then 0
    else
      var i := FirstFree(slots[..|slots| - 1]);
      if i < |slots| - 1 then i else if slots[i].None? then i else i + 1
  }

  // Storing: purge, then refuse a full store or a recipient with 64 packets, else take the first
  // free slot.
  function Store(slots: Slots, p: Packet): (Result<nat, StoreError>, Slots) {
    if |p.body| > MAX_BODY then (Err(BodyTooLarge), slots)
    else
      var kept := Purge(slots, p.storedAt);
      if Tally(kept, Taken()) >= MAX_STORED then (Err(StoreFull), kept)
      else if Tally(kept, TakenBy(p.recipient)) >= MAX_PER_RECIPIENT then (Err(RecipientQuota), kept)
      else
        var i := FirstFree(kept);
        if i < |kept| then (Ok(i), kept[i := Some(p)]) else (Err(StoreFull), kept)
  }

  // The oldest packet for a recipient, the lowest slot among equals.
  function Oldest(slots: Slots, r: bytes): (best: Option<nat>)
    ensures best.None? <==> forall k :: 0 <= k < |slots| ==> !IsFor(slots[k], r)
    ensures best.Some? ==> best.value < |slots| && IsFor(slots[best.value], r)
    ensures best.Some? ==> forall k :: 0 <= k < |slots| && IsFor(slots[k], r) ==>
                             && slots[best.value].value.storedAt <= slots[k].value.storedAt
                             && (k < best.value ==> slots[best.value].value.storedAt < slots[k].value.storedAt)
  {
    if slots == [] then None
    else
      var last := |slots| - 1;
      var best := Oldest(slots[..last], r);
      assert forall k :: 0 <= k < last ==> slots[..last][k] == slots[k];
      if !IsFor(slots[last], r) then best
      else if best.Some? && slots[last].value.storedAt >= slots[best.value].value.storedAt then best
      else Some(last)
  }

  function Drain(slots: Slots, r: bytes, now: u64): (Option<Packet>, Slots) {
    var kept := Purge(slots, now);
    match Oldest(kept, r)
    case None => (None, kept)
    case Some(i) => (kept[i], kept[i := None])
  }

  // ---------- bounds ----------

  ghost predicate Bounded(slots: Slots) {
    && |slots| == MAX_STORED
    && (forall i :: 0 <= i < |slots| && slots[i].Some? ==> |slots[i].value.body| <= MAX_BODY)
    && (forall r :: Tally(slots, TakenBy(r)) <= MAX_PER_RECIPIENT)
  }

  lemma {:induction false} PurgeTallies(slots: Slots, now: u64, f: Option<Packet> -> nat)
    requires f(None) == 0
    ensures Tally(Purge(slots, now), f) <= Tally(slots, f)
  {
    if slots != [] {
      PurgeTallies(slots[..|slots| - 1], now, f);
      assert Purge(slots, now)[..|slots| - 1] == Purge(slots[..|slots| - 1], now);
    }
  }

  lemma PurgeKeepsBounds(slots: Slots, now: u64)
    requires Bounded(slots)
    ensures Bounded(Purge(slots, now))
  {
    forall r ensures Tally(Purge(slots, now), TakenBy(r)) <= MAX_PER_RECIPIENT {
      PurgeTallies(slots, now, TakenBy(r));
    }
  }

  // Few packets of little size: the byte allowance of four mebibytes is out of reach.
  lemma {:induction false} BytesWithinPackets(slots: Slots, r: bytes)
    requires forall i :: 0 <= i < |slots| && slots[i].Some? ==> |slots[i].value.body| <= MAX_BODY
    ensures Tally(slots, BytesOf(r)) <= MAX_BODY * Tally(slots, TakenBy(r))
  {
    if slots != [] {
      var init := slots[..|slots| - 1];
      assert forall i :: 0 <= i < |init| ==> init[i] == slots[i];
      BytesWithinPackets(init, r);
    }
  }

  lemma StoreKeepsBounds(slots: Slots, p: Packet)
    requires Bounded(slots)
    ensures Bounded(Store(slots, p).1)
  {
    PurgeKeepsBounds(slots, p.storedAt);
    var kept := Purge(slots, p.storedAt);
    var (res, after) := Store(slots, p);
    if res.Ok? {
      forall r ensures Tally(after, TakenBy(r)) <= MAX_PER_RECIPIENT {
        TallyUpdate(kept, res.value, Some(p), TakenBy(r));
      }
    }
  }

  lemma DrainKeepsBounds(slots: Slots, r: bytes, now: u64)
    requires Bounded(slots)
    ensures Bounded(Drain(slots, r, now).1)
  {
    PurgeKeepsBounds(slots, now);
    var kept := Purge(slots, now);
    if Oldest(kept, r).Some? {
      var i := Oldest(kept, r).value;
      forall x ensures Tally(kept[i := None], TakenBy(x)) <= MAX_PER_RECIPIENT {
        TallyUpdate(kept, i, None, TakenBy(x));
      }
    }
  }

  // A packet is refused for one of three reasons, exactly; and a store that is not full has a slot.
  lemma RefusalReasons(slots: Slots, p: Packet)
    requires Bounded(slots)
    ensures var kept := Purge(slots, p.storedAt);
            var res := Store(slots, p).0;
            && (res == Err(BodyTooLarge) <==> |p.body| > MAX_BODY)
            && (res == Err(StoreFull) <==> |p.body| <= MAX_BODY && |Held(kept)| == MAX_STORED)
            && (res == Err(RecipientQuota) <==>
                  |p.body| <= MAX_BODY && |Held(kept)| < MAX_STORED
                  && Tally(kept, TakenBy(p.recipient)) == MAX_PER_RECIPIENT)
  {
    PurgeKeepsBounds(slots, p.storedAt);
    HeldSize(Purge(slots, p.storedAt));
    FullIffAllTaken(Purge(slots, p.storedAt));
  }

  // ---------- conservation ----------

  // The packets a purge drops.
  ghost function Lapsed(slots: Slots, now: u64): multiset<Packet> {
    if slots == [] then multiset{}
    else
      var s := slots[|slots| - 1];
      Lapsed(slots[..|slots| - 1], now) + (if s.Some? && Expired(s.value, now) then One(s) else multiset{})
  }

  // A purge splits the bag into what is past its time and what is not.
  lemma {:induction false} PurgeSplits(slots: Slots, now: u64)
    ensures Held(slots) == Held(Purge(slots, now)) + Lapsed(slots, now)
  {
    if slots != [] {
      var last := |slots| - 1;
      var init := slots[..last];
      PurgeSplits(init, now);
      assert Purge(slots, now)[..last] == Purge(init, now);
      var kept, lost := Held(Purge(init, now)), Lapsed(init, now);
      assert Held(slots) == kept + lost + One(slots[last]);
      if slots[last].Some? && Expired(slots[last].value, now) {
        assert Held(Purge(slots, now)) == kept + multiset{};
      } else {
        assert Lapsed(slots, now) == lost + multiset{};
      }
    }
  }

  lemma {:induction false} DroppedAreExpired(slots: Slots, now: u64, p: Packet)
    ensures p in Lapsed(slots, now) ==> now >= p.storedAt + 120_000
    ensures p in Held(Purge(slots, now)) ==> now < p.storedAt + 120_000
  {
    if slots != [] {
      DroppedAreExpired(slots[..|slots| - 1], now, p);
    }
    HeldIsPresent(Purge(slots, now), p);
  }

  datatype Op = Put(packet: Packet) | Take(recipient: bytes, now: u64) | Sweep(now: u64) {
    function Now(): u64 {
      match this
      case Put(p) => p.storedAt
      case Take(_, now) => now
      case Sweep(now) => now
    }
  }

  // The store with its history: packets accepted, handed over, and dropped.
  datatype World = World(slots: Slots, accepted: seq<Packet>, drained: seq<Packet>, dropped: multiset<Packet>)

  ghost function Step(w: World, op: Op): World {
    match op
    case Put(p) =>
      var (res, after) := Store(w.slots, p);
      w.(slots := after,
         accepted := if res.Ok? then w.accepted + [p] else w.accepted,
         dropped := w.dropped + if res == Err(BodyTooLarge) then multiset{} else Lapsed(w.slots, p.storedAt))
    case Take(r, now) =>
      var (got, after) := Drain(w.slots, r, now);
      w.(slots := after,
         drained := if got.Some? then w.drained + [got.value] else w.drained,
         dropped := w.dropped + Lapsed(w.slots, now))
    case Sweep(now) =>
      w.(slots := Purge(w.slots, now), dropped := w.dropped + Lapsed(w.slots, now))
  }

  ghost function Run(w: World, ops: seq<Op>): World
    decreases ops
  {
    if ops == [] then w else Run(Step(w, ops[0]), ops[1..])
  }

  ghost function Empty(): World {
    World(seq(MAX_STORED, _ => None), [], [], multiset{})
  }

  // Every packet accepted is held, was handed over, or was dropped: once each, and nothing else is.
  ghost predicate Conserved(w: World) {
    multiset(w.accepted) == Held(w.slots) + multiset(w.drained) + w.dropped
  }

  // Dropping what has lapsed conserves, and leaves the slots every operation goes on from.
  ghost function Aged(w: World, now: u64): World {
    w.(slots := Purge(w.slots, now), dropped := w.dropped + Lapsed(w.slots, now))
  }

  lemma AgedConserves(w: World, now: u64)
    requires Conserved(w)
    ensures Conserved(Aged(w, now))
  {
    PurgeSplits(w.slots, now);
    hide Held, Lapsed, Purge;
  }

  lemma PlacedConserves(w: World, i: nat, p: Packet)
    requires Conserved(w) && i < |w.slots| && w.slots[i].None?
    ensures Conserved(w.(slots := w.slots[i := Some(p)], accepted := w.accepted + [p]))
  {
    HeldUpdate(w.slots, i, Some(p));
    var held, after := Held(w.slots), Held(w.slots[i := Some(p)]);
    assert after == held + multiset{p};
    assert multiset(w.accepted + [p]) == multiset(w.accepted) + multiset{p};
    hide Held;
    AddBag(multiset(w.accepted), multiset{}, held, multiset(w.drained) + w.dropped, multiset{p});
  }

  lemma HandedConserves(w: World, i: nat, p: Packet)
    requires Conserved(w) && i < |w.slots| && w.slots[i] == Some(p)
    ensures Conserved(w.(slots := w.slots[i := None], drained := w.drained + [p]))
  {
    HeldUpdate(w.slots, i, None);
    var held, after := Held(w.slots), Held(w.slots[i := None]);
    assert held == after + multiset{p};
    assert multiset(w.drained + [p]) == multiset(w.drained) + multiset{p};
  }

  lemma PutConserves(w: World, p: Packet)
    requires Conserved(w)
    ensures Conserved(Step(w, Put(p)))
  {
    hide Conserved, Held, Lapsed;
    AgedConserves(w, p.storedAt);
    var aged, res := Aged(w, p.storedAt), Store(w.slots, p).0;
    if res.Ok? {
      PlacedConserves(aged, res.value, p);
      assert Step(w, Put(p)) == aged.(slots := aged.slots[res.value := Some(p)], accepted := w.accepted + [p]);
    } else if res != Err(BodyTooLarge) {
      assert Step(w, Put(p)) == aged;
    } else {
      assert w.dropped + multiset{} == w.dropped;
      assert Step(w, Put(p)) == w;
    }
  }

  lemma TakeConserves(w: World, r: bytes, now: u64)
    requires Conserved(w)
    ensures Conserved(Step(w, Take(r, now)))
  {
    hide Conserved, Held, Lapsed;
    AgedConserves(w, now);
    var aged := Aged(w, now);
    var best := Oldest(aged.slots, r);
    if best.Some? {
      var p := aged.slots[best.value].value;
      HandedConserves(aged, best.value, p);
      assert Step(w, Take(r, now)) == aged.(slots := aged.slots[best.value := None], drained := w.drained + [p]);
    } else {
      assert Step(w, Take(r, now)) == aged;
    }
  }

  lemma StepConserves(w: World, op: Op)
    requires Conserved(w) && Bounded(w.slots)
    ensures Conserved(Step(w, op)) && Bounded(Step(w, op).slots)
  {
    hide Bounded, Conserved;
    match op
    case Put(p) =>
      PutConserves(w, p);
      StoreKeepsBounds(w.slots, p);
    case Take(r, now) =>
      TakeConserves(w, r, now);
      DrainKeepsBounds(w.slots, r, now);
    case Sweep(now) =>
      AgedConserves(w, now);
      PurgeKeepsBounds(w.slots, now);
  }

  lemma {:induction false} EmptyHolds(n: nat)
    ensures var none: Slots := seq(n, _ => None);
            Held(none) == multiset{} && forall r :: Tally(none, TakenBy(r)) == 0
  {
    var none: Slots := seq(n, _ => None);
    if n > 0 {
      EmptyHolds(n - 1);
      assert none[..n - 1] == seq(n - 1, _ => None);
    }
  }

  lemma {:induction false} RunConserves(w: World, ops: seq<Op>)
    requires Conserved(w) && Bounded(w.slots)
    ensures Conserved(Run(w, ops)) && Bounded(Run(w, ops).slots)
    decreases ops
  {
    if ops != [] {
      StepConserves(w, ops[0]);
      RunConserves(Step(w, ops[0]), ops[1..]);
    }
  }

  lemma NothingLost(ops: seq<Op>)
    ensures Conserved(Run(Empty(), ops)) && Bounded(Run(Empty(), ops).slots)
  {
    EmptyHolds(MAX_STORED);
    RunConserves(Empty(), ops);
  }

  // ---------- order of delivery ----------

  // Deliveries to one recipient are in order of arrival, and what is still held came later.
  ghost predicate InOrder(w: World, clock: u64) {
    && (forall i :: 0 <= i < |w.slots| && w.slots[i].Some? ==> w.slots[i].value.storedAt <= clock)
    && (forall i, j :: 0 <= i < j < |w.drained| && w.drained[i].recipient == w.drained[j].recipient ==>
          w.drained[i].storedAt <= w.drained[j].storedAt)
    && (forall i, k :: 0 <= i < |w.drained| && 0 <= k < |w.slots| && IsFor(w.slots[k], w.drained[i].recipient) ==>
          w.drained[i].storedAt <= w.slots[k].value.storedAt)
    && (forall i :: 0 <= i < |w.drained| ==> w.drained[i].storedAt <= clock)
  }

  lemma AgedInOrder(w: World, clock: u64, now: u64)
    requires InOrder(w, clock) && clock <= now
    ensures InOrder(Aged(w, now), now)
  {
    hide Lapsed;
    assert forall k :: 0 <= k < |w.slots| && Aged(w, now).slots[k].Some? ==> Aged(w, now).slots[k] == w.slots[k];
  }

  lemma PutInOrder(aged: World, i: nat, p: Packet)
    requires InOrder(aged, p.storedAt) && i < |aged.slots|
    ensures InOrder(aged.(slots := aged.slots[i := Some(p)], accepted := aged.accepted + [p]), p.storedAt)
  {
    var after := aged.slots[i := Some(p)];
    assert forall k :: 0 <= k < |after| && k != i ==> after[k] == aged.slots[k];
  }

  lemma TakeInOrder(aged: World, r: bytes, i: nat, now: u64)
    requires InOrder(aged, now) && Oldest(aged.slots, r) == Some(i)
    ensures InOrder(aged.(slots := aged.slots[i := None], drained := aged.drained + [aged.slots[i].value]), now)
  {
    var after, drained := aged.slots[i := None], aged.drained + [aged.slots[i].value];
    assert forall k :: 0 <= k < |after| && after[k].Some? ==> after[k] == aged.slots[k];
    assert forall k :: 0 <= k < |aged.drained| ==> drained[k] == aged.drained[k];
  }

  lemma StepInOrder(w: World, op: Op, clock: u64)
    requires InOrder(w, clock) && clock <= op.Now()
    ensures InOrder(Step(w, op), op.Now())
  {
    var aged := Aged(w, op.Now());
    AgedInOrder(w, clock, op.Now());
    match op
    case Put(p) =>
      var res := Store(w.slots, p).0;
      if res.Ok? {
        PutInOrder(aged, res.value, p);
      } else if res == Err(BodyTooLarge) {
        assert Step(w, op).slots == w.slots && Step(w, op).drained == w.drained;
      }
    case Take(r, now) =>
      if Oldest(aged.slots, r).Some? {
        TakeInOrder(aged, r, Oldest(aged.slots, r).value, now);
      }
    case Sweep(_) =>
  }

  // On a clock that does not go back, successive packets handed to a recipient were stored in that order.
  lemma {:induction false} DrainsInOrder(w: World, ops: seq<Op>, clock: u64)
    requires InOrder(w, clock)
    requires forall k :: 0 <= k < |ops| ==> clock <= ops[k].Now()
    requires forall j, k :: 0 <= j < k < |ops| ==> ops[j].Now() <= ops[k].Now()
    ensures InOrder(Run(w, ops), if ops == [] then clock else ops[|ops| - 1].Now())
    decreases ops
  {
    hide InOrder, Step;
    if ops != [] {
      StepInOrder(w, ops[0], clock);
      DrainsInOrder(Step(w, ops[0]), ops[1..], ops[0].Now());
    }
  }

  // A delivery is for the caller and within its lifetime, and one is made whenever there is such a packet.
  lemma DeliveryIff(slots: Slots, r: bytes, now: u64)
    ensures var got := Drain(slots, r, now).0;
            && (got.Some? ==>
                  got.value.recipient == r && now < got.value.storedAt + 120_000 && got.value in Held(slots))
            && (got.Some? <==> exists p: Packet :: p in Held(slots) && p.recipient == r && now < p.storedAt + 120_000)
  {
    var kept := Purge(slots, now);
    var best := Oldest(kept, r);
    if best.Some? {
      HeldIsPresent(slots, kept[best.value].value);
      assert slots[best.value] == kept[best.value];
    } else {
      forall p: Packet | p in Held(slots) && p.recipient == r ensures now >= p.storedAt + 120_000 {
        HeldIsPresent(slots, p);
        var i :| 0 <= i < |slots| && slots[i] == Some(p);
        assert kept[i] == Keep(Some(p), now);
      }
    }
  }

  // ---------- the store ----------

  // A slot keeps its last packet's fields after it is freed.
  datatype Cell = Cell(inUse: bool, packet: Packet)

  function View(cells: seq<Cell>): (r: Slots)
    ensures |r| == |cells|
    ensures forall i :: 0 <= i < |cells| ==> r[i] == if cells[i].inUse then Some(cells[i].packet) else None
  {
    seq(|cells|, i requires 0 <= i < |cells| => if cells[i].inUse then Some(cells[i].packet) else None)
  }

  class Relay {
    const packets: array<Cell>
    var count: nat
    var refusedQuota: nat

    ghost predicate Valid()
      reads this, packets
    {
      && Bounded(View(packets[..]))
      && count == Tally(View(packets[..]), Taken())
    }

    constructor ()
      ensures Valid() && fresh(packets)
      ensures View(packets[..]) == Empty().slots && count == 0 && refusedQuota == 0
    {
      packets := new Cell[MAX_STORED](_ => Cell(false, Packet(0, [], [], 0)));
      count, refusedQuota := 0, 0;
      new;
      EmptyHolds(MAX_STORED);
      assert View(packets[..]) == seq(MAX_STORED, _ => None);
      HeldSize(View(packets[..]));
    }

    method PurgeExpired(now: u64) returns (purged: nat)
      requires Valid()
      modifies `count, packets
      ensures Valid()
      ensures View(packets[..]) == Purge(old(View(packets[..])), now)
      ensures purged == old(count) - count
    {
      hide Bounded, Tally;
      ghost var was := View(packets[..]);
      purged := 0;
      for i := 0 to packets.Length
        invariant forall k :: 0 <= k < i ==> View(packets[..])[k] == Keep(was[k], now)
        invariant forall k :: i <= k < packets.Length ==> View(packets[..])[k] == was[k]
        invariant count == Tally(View(packets[..]), Taken())
        invariant purged == old(count) - count
      {
        var c := packets[i];
        if c.inUse && now >= c.packet.storedAt && now - c.packet.storedAt >= TTL_MS {
          Free(i);
          purged := purged + 1;
        }
      }
      assert View(packets[..]) == Purge(was, now);
      PurgeKeepsBounds(was, now);
    }

    // Give up a slot in use.
    method Free(i: nat)
      requires i < packets.Length && packets[i].inUse
      requires count == Tally(View(packets[..]), Taken())
      modifies `count, packets
      ensures View(packets[..]) == old(View(packets[..]))[i := None]
      ensures count == Tally(View(packets[..]), Taken()) == old(count) - 1
    {
      ghost var view := View(packets[..]);
      TallyUpdate(view, i, None, Taken());
      packets[i] := Cell(false, packets[i].packet);
      assert View(packets[..]) == view[i := None];
      count := count - 1;
    }

    method Put(recipient: bytes, sender: u32, body: bytes, now: u64) returns (r: Result<nat, StoreError>)
      requires Valid()
      modifies `count, `refusedQuota, packets
      ensures Valid()
      ensures (r, View(packets[..])) == Store(old(View(packets[..])), Packet(sender, recipient, body, now))
      ensures refusedQuota == old(refusedQuota) + if r.Err? && r.error != BodyTooLarge then 1 else 0
    {
      var p := Packet(sender, recipient, body, now);
      ghost var was := View(packets[..]);
      if |body| > MAX_BODY {
        return Err(BodyTooLarge);
      }
      StoreKeepsBounds(was, p);
      var _ := PurgeExpired(now);
      ghost var kept := View(packets[..]);
      if count >= MAX_STORED {
        refusedQuota := refusedQuota + 1;
        return Err(StoreFull);
      }
      var held, size := QuotaOf(recipient);
      BytesWithinPackets(kept, recipient);
      if held >= MAX_PER_RECIPIENT || size + |body| > MAX_BYTES_PER_RECIPIENT {
        refusedQuota := refusedQuota + 1;
        return Err(RecipientQuota);
      }
      FullIffAllTaken(kept);
      r := Place(p);
    }

    // A recipient's packets and bytes.
    method QuotaOf(recipient: bytes) returns (held: nat, size: nat)
      ensures held == Tally(View(packets[..]), TakenBy(recipient))
      ensures size == Tally(View(packets[..]), BytesOf(recipient))
    {
      ghost var view := View(packets[..]);
      held, size := 0, 0;
      for i := 0 to packets.Length
        invariant held == Tally(view[..i], TakenBy(recipient))
        invariant size == Tally(view[..i], BytesOf(recipient))
      {
        assert view[..i + 1][..i] == view[..i];
        var c := packets[i];
        if c.inUse && c.packet.recipient == recipient {
          held := held + 1;
          size := size + |c.packet.body|;
        }
      }
      assert view[..packets.Length] == view;
    }

    // Take the first free slot.
    method Place(p: Packet) returns (r: Result<nat, StoreError>)
      requires count == Tally(View(packets[..]), Taken())
      requires exists i :: 0 <= i < packets.Length && !packets[i].inUse
      modifies `count, packets
      ensures r == Ok(FirstFree(old(View(packets[..]))))
      ensures FirstFree(old(View(packets[..]))) < packets.Length
      ensures View(packets[..]) == old(View(packets[..]))[FirstFree(old(View(packets[..]))) := Some(p)]
      ensures count == Tally(View(packets[..]), Taken())
    {
      ghost var view := View(packets[..]);
      var i := 0;
      while packets[i].inUse
        invariant 0 <= i < packets.Length
        invariant forall k :: 0 <= k < i ==> packets[k].inUse
        invariant exists k :: i <= k < packets.Length && !packets[k].inUse
        decreases packets.Length - i
      {
        i := i + 1;
      }
      TallyUpdate(view, i, Some(p), Taken());
      packets[i] := Cell(true, p);
      assert View(packets[..]) == view[i := Some(p)];
      count := count + 1;
      return Ok(i);
    }

    // Hand over the oldest packet for the recipient.
    method DrainNext(recipient: bytes, now: u64) returns (got: Option<Packet>)
      requires Valid()
      modifies `count, packets
      ensures Valid()
      ensures (got, View(packets[..])) == Drain(old(View(packets[..])), recipient, now)
    {
      DrainKeepsBounds(View(packets[..]), recipient, now);
      var _ := PurgeExpired(now);
      hide Bounded;
      ghost var kept := View(packets[..]);
      var best: Option<nat> := None;
      for i := 0 to packets.Length
        invariant best == Oldest(kept[..i], recipient)
      {
        assert kept[..i + 1][..i] == kept[..i];
        var c := packets[i];
        if c.inUse && c.packet.recipient == recipient {
          if best.None? || c.packet.storedAt < packets[best.value].packet.storedAt {
            best := Some(i);
          }
        }
      }
      assert kept[..packets.Length] == kept;
      if best.None? {
        return None;
      }
      var idx := best.value;
      var packet := packets[idx].packet;
      Free(idx);
      return Some(packet);
    }
  }
}
