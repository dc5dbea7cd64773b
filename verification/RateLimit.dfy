/** Rate limiting by a ring of admission times, and the per-peer table of such windows. */
module RateLimit {
  import opened Base
  import opened Collections

  const SERVE_BUDGET := 8
  const MAX_TRACKED_PEERS := 64

  // ---------- counting admissions in a window ----------

  // A recorded time lies in the window ending now; time 0 marks an empty place.
  predicate Inside(stamp: u64, window: u64, now: u64) {
    stamp != 0 && now >= stamp && now - stamp < window
  }

  function CountInside(stamps: seq<u64>, window: u64, now: u64): (n: nat)
    ensures n <= |stamps|
  {
    if stamps == [] then 0
    else CountInside(stamps[..|stamps| - 1], window, now)
         + (if Inside(stamps[|stamps| - 1], window, now) then 1 else 0)
  }

  function LastOf(history: seq<u64>, n: nat): seq<u64> {
    if |history| <= n then history else history[|history| - n..]
  }

  ghost predicate Monotone(history: seq<u64>) {
    forall i, j :: 0 <= i < j < |history| ==> history[i] <= history[j]
  }

  // What the ring decides: it remembers the last `budget` admissions.
  ghost predicate Allows(history: seq<u64>, budget: nat, window: u64, now: u64) {
    CountInside(LastOf(history, budget), window, now) < budget
  }

  // The admissions less than a window ago.
  ghost function Recent(history: seq<u64>, window: u64, now: u64): set<nat> {
    set i: nat | i < |history| && 0 < history[i] <= now && now - history[i] < window
  }

  lemma {:induction false} CountIsRecent(history: seq<u64>, window: u64, now: u64)
    ensures CountInside(history, window, now) == |Recent(history, window, now)|
  {
    if history == [] {
      assert Recent(history, window, now) == {};
    } else {
      var last := |history| - 1;
      CountIsRecent(history[..last], window, now);
      assert Recent(history, window, now)
          == Recent(history[..last], window, now) + if Inside(history[last], window, now) then {last} else {};
    }
  }

  lemma {:induction false} CountSplit(a: seq<u64>, b: seq<u64>, window: u64, now: u64)
    ensures CountInside(a + b, window, now) == CountInside(a, window, now) + CountInside(b, window, now)
  {
    if b == [] {
      assert a + b == a;
    } else {
      var init := b[..|b| - 1];
      CountSplit(a, init, window, now);
      assert (a + b)[..|a + b| - 1] == a + init;
    }
  }

  lemma {:induction false} CountFull(stamps: seq<u64>, window: u64, now: u64)
    ensures CountInside(stamps, window, now) == |stamps| <==> forall s <- stamps :: Inside(s, window, now)
  {
    if stamps != [] {
      var init := stamps[..|stamps| - 1];
      CountFull(init, window, now);
      assert stamps == init + [stamps[|stamps| - 1]];
    }
  }

  lemma {:induction false} CountNone(stamps: seq<u64>, window: u64, now: u64)
    requires forall s <- stamps :: !Inside(s, window, now)
    ensures CountInside(stamps, window, now) == 0
  {
    if stamps != [] {
      CountNone(stamps[..|stamps| - 1], window, now);
    }
  }

  // Nothing older than an admission outside the window is inside it.
  lemma OlderOutside(history: seq<u64>, cut: nat, i: nat, window: u64, now: u64)
    requires Monotone(history + [now]) && cut <= i < |history| && !Inside(history[i], window, now)
    ensures forall s <- history[..cut] :: !Inside(s, window, now)
  {
    forall s | s in history[..cut] ensures !Inside(s, window, now) {
      var k :| 0 <= k < cut && history[k] == s;
      assert (history + [now])[k] <= (history + [now])[i] <= (history + [now])[|history|];
    }
  }

  // On a clock that does not go back, remembering the last `budget` admissions is as good as
  // remembering all of them: the limiter is an exact sliding window.
  lemma ExactWindow(history: seq<u64>, budget: nat, window: u64, now: u64)
    requires Monotone(history + [now])
    ensures Allows(history, budget, window, now) <==> CountInside(history, window, now) < budget
    ensures CountInside(history, window, now) == |Recent(history, window, now)|
  {
    CountIsRecent(history, window, now);
    hide CountInside, Monotone, Inside, Recent;
    if |history| > budget {
      var cut := |history| - budget;
      var past, recent := history[..cut], history[cut..];
      assert history == past + recent;
      CountSplit(past, recent, window, now);
      CountFull(recent, window, now);
      if CountInside(recent, window, now) < budget {
        var s :| s in recent && !Inside(s, window, now);
        var i :| cut <= i < |history| && history[i] == s;
        OlderOutside(history, cut, i, window, now);
        CountNone(past, window, now);
      }
    }
  }

  // ---------- runs ----------

  ghost function Admissions(history: seq<u64>, budget: nat, calls: seq<(u64, u64)>): seq<u64>
    decreases calls
  {
    if calls == [] then history
    else
      var (window, now) := calls[0];
      Admissions(if Allows(history, budget, window, now) then history + [now] else history, budget, calls[1..])
  }

  // An admission that found room leaves every interval within the budget.
  lemma OneMoreFits(history: seq<u64>, budget: nat, window: u64, now: u64, t: u64)
    requires forall i :: 0 <= i < |history| ==> history[i] <= now
    requires now > 0 && CountInside(history, window, now) < budget && CountInside(history, window, t) <= budget
    ensures CountInside(history + [now], window, t) <= budget
  {
    var next := history + [now];
    assert next[..|next| - 1] == history;
    if Inside(now, window, t) {
      LaterSeesFewer(history, window, now, t);
    }
  }

  // With a fixed window and a clock that starts positive and does not go back, no window-long
  // interval ever holds more than `budget` admissions.
  lemma {:induction false} NeverOverBudget(history: seq<u64>, budget: nat, calls: seq<(u64, u64)>, window: u64, at: u64)
    requires forall c <- calls :: c.0 == window && c.1 > 0
    requires Monotone(history)
    requires forall i, j :: 0 <= i < |history| && 0 <= j < |calls| ==> history[i] <= calls[j].1
    requires forall i, j :: 0 <= i < j < |calls| ==> calls[i].1 <= calls[j].1
    requires forall t: u64 :: CountInside(history, window, t) <= budget
    ensures CountInside(Admissions(history, budget, calls), window, at) <= budget
    ensures |Recent(Admissions(history, budget, calls), window, at)| <= budget
    decreases calls
  {
    CountIsRecent(Admissions(history, budget, calls), window, at);
    hide Recent;
    if calls != [] {
      hide Allows, CountInside, Inside;
      var now := calls[0].1;
      var next := if Allows(history, budget, window, now) then history + [now] else history;
      ExactWindow(history, budget, window, now);
      if Allows(history, budget, window, now) {
        forall t: u64 ensures CountInside(next, window, t) <= budget {
          OneMoreFits(history, budget, window, now, t);
        }
      }
      NeverOverBudget(next, budget, calls[1..], window, at);
    }
  }

  // Among admissions up to `now`, a later window holds no more of them.
  lemma {:induction false} LaterSeesFewer(history: seq<u64>, window: u64, now: u64, t: u64)
    requires now <= t && forall i :: 0 <= i < |history| ==> history[i] <= now
    ensures CountInside(history, window, t) <= CountInside(history, window, now)
  {
    if history != [] {
      LaterSeesFewer(history[..|history| - 1], window, now, t);
    }
  }

  // ---------- the ring ----------

  // The last `budget` admissions, oldest first, with zeros where there were none yet.
  function Padded(history: seq<u64>, budget: nat): (p: seq<u64>)
    ensures |p| == budget
  {
    (seq(budget, _ => 0) + history)[|history|..]
  }

  // A ring read from its oldest place.
  function Rotated(ring: seq<u64>, next: nat): seq<u64>
    requires next <= |ring|
  {
    ring[next..] + ring[..next]
  }

  lemma PaddedCounts(history: seq<u64>, budget: nat, window: u64, now: u64)
    ensures CountInside(Padded(history, budget), window, now) == CountInside(LastOf(history, budget), window, now)
  {
    if |history| < budget {
      var zeros: seq<u64> := seq(budget - |history|, _ => 0);
      assert Padded(history, budget) == zeros + history;
      CountSplit(zeros, history, window, now);
      CountNone(zeros, window, now);
    } else {
      assert Padded(history, budget) == LastOf(history, budget);
    }
  }

  lemma RotatedCounts(ring: seq<u64>, next: nat, window: u64, now: u64)
    requires next <= |ring|
    ensures CountInside(Rotated(ring, next), window, now) == CountInside(ring, window, now)
  {
    CountSplit(ring[next..], ring[..next], window, now);
    CountSplit(ring[..next], ring[next..], window, now);
    assert ring == ring[..next] + ring[next..];
  }

  lemma PaddedNext(history: seq<u64>, budget: nat, now: u64)
    requires budget > 0
    ensures Padded(history + [now], budget) == Padded(history, budget)[1..] + [now]
  {
    var zeros: seq<u64> := seq(budget, _ => 0);
    assert zeros + (history + [now]) == (zeros + history) + [now];
  }

  // The place after `next` in a ring of n.
  lemma NextPlace(next: nat, n: nat)
    requires next < n
    ensures (next + 1) % n == if next + 1 == n then 0 else next + 1
  {
  }

  // Overwriting the oldest place and stepping past it appends to the rotated reading.
  lemma RingAdvances(ring: seq<u64>, next: nat, after: nat, now: u64)
    requires next < |ring| && after == if next + 1 == |ring| then 0 else next + 1
    ensures Rotated(ring[next := now], after) == Rotated(ring, next)[1..] + [now]
  {
    if after == 0 {
      assert Rotated(ring[next := now], 0) == ring[..next] + [now];
      assert Rotated(ring, next) == [ring[next]] + ring[..next];
    } else {
      assert Rotated(ring[next := now], after) == ring[after..] + ring[..next] + [now];
      assert Rotated(ring, next) == [ring[next]] + ring[after..] + ring[..next];
    }
  }

  class RateWindow {
    const stamps: array<u64>
    const budget: nat
    var next: nat
    ghost var history: seq<u64>

    ghost predicate Valid()
      reads this, stamps
    {
      && stamps.Length == SERVE_BUDGET && budget <= SERVE_BUDGET
      && (if budget == 0 then next == 0 else next < budget)
      && Rotated(stamps[..budget], next) == Padded(history, budget)
    }

    constructor (budget: nat)
      requires budget <= SERVE_BUDGET
      ensures Valid() && fresh(stamps) && history == [] && this.budget == budget
    {
      stamps := new u64[SERVE_BUDGET](_ => 0);
      this.budget := budget;
      next, history := 0, [];
    }

    // Admit when fewer than `budget` recorded admissions lie inside the window.
    method Admit(window: u64, now: u64) returns (admitted: bool)
      requires Valid()
      modifies `next, `history, stamps
      ensures Valid()
      ensures admitted <==> Allows(old(history), budget, window, now)
      ensures history == if admitted then old(history) + [now] else old(history)
    {
      hide Padded, Rotated;
      ghost var ring := stamps[..budget];
      var inside := 0;
      for i := 0 to budget
        invariant inside == CountInside(ring[..i], window, now)
      {
        assert ring[..i + 1][..i] == ring[..i];
        var s := stamps[i];
        if s != 0 && now >= s && now - s < window {
          inside := inside + 1;
        }
      }
      assert ring[..budget] == ring;
      RotatedCounts(ring, next, window, now);
      PaddedCounts(history, budget, window, now);
      if inside >= budget {
        return false;
      }
      NextPlace(next, budget);
      RingAdvances(ring, next, (next + 1) % budget, now);
      PaddedNext(history, budget, now);
      stamps[next] := now;
      assert stamps[..budget] == ring[next := now];
      next := (next + 1) % budget;
      history := history + [now];
      return true;
    }
  }

  // ---------- the table ----------

  // The admission history of each tracked peer.
  type Histories = map<bytes, seq<u64>>

  // A tracked peer is judged by its own history, as if it had a window to itself; an untracked one
  // is tracked while there is room.
  ghost predicate TableAllows(hs: Histories, peer: bytes, budget: nat, window: u64, now: u64) {
    if peer in hs then Allows(hs[peer], budget, window, now)
    else |hs| < MAX_TRACKED_PEERS && Allows([], budget, window, now)
  }

  ghost function TableNext(hs: Histories, peer: bytes, budget: nat, window: u64, now: u64): Histories {
    if peer !in hs && |hs| >= MAX_TRACKED_PEERS then hs
    else
      var h := if peer in hs then hs[peer] else [];
      hs[peer := if Allows(h, budget, window, now) then h + [now] else h]
  }

  // One call by a peer: (peer, window, now).
  datatype Call = Call(peer: bytes, window: u64, now: u64)

  ghost function TableAfter(hs: Histories, budget: nat, calls: seq<Call>): Histories
    decreases calls
  {
    if calls == [] then hs
    else TableAfter(TableNext(hs, calls[0].peer, budget, calls[0].window, calls[0].now), budget, calls[1..])
  }

  // The calls of one peer.
  function CallsOf(calls: seq<Call>, peer: bytes): seq<(u64, u64)> {
    if calls == [] then []
    else (if calls[0].peer == peer then [(calls[0].window, calls[0].now)] else []) + CallsOf(calls[1..], peer)
  }

  // A full table never comes to track a new peer.
  lemma {:induction false} FullStaysClosed(hs: Histories, budget: nat, calls: seq<Call>, peer: bytes)
    requires peer !in hs && |hs| >= MAX_TRACKED_PEERS
    ensures peer !in TableAfter(hs, budget, calls)
    decreases calls
  {
    hide Allows;
    if calls != [] {
      var c := calls[0];
      var next := TableNext(hs, c.peer, budget, c.window, c.now);
      if c.peer in hs {
        assert next.Keys == hs.Keys;
        assert |next| == |next.Keys| == |hs.Keys| == |hs|;
      }
      FullStaysClosed(next, budget, calls[1..], peer);
    }
  }

  lemma CallsOfFirst(calls: seq<Call>, peer: bytes)
    requires calls != []
    ensures var c, of := calls[0], CallsOf(calls, peer);
            if c.peer == peer then of != [] && of[0] == (c.window, c.now) && of[1..] == CallsOf(calls[1..], peer)
            else of == CallsOf(calls[1..], peer)
  {
  }

  // What a window of the peer's own would have recorded, fed only that peer's calls.
  ghost function PrivateHistory(hs: Histories, budget: nat, calls: seq<Call>, peer: bytes): seq<u64> {
    Admissions(if peer in hs then hs[peer] else [], budget, CallsOf(calls, peer))
  }

  // Peers do not disturb each other: whatever the table before, a peer tracked after a run of calls has the
  // history of a window of its own.
  lemma {:induction false} PeersIndependent(hs: Histories, budget: nat, calls: seq<Call>, peer: bytes)
    requires peer in TableAfter(hs, budget, calls)
    ensures TableAfter(hs, budget, calls)[peer] == PrivateHistory(hs, budget, calls, peer)
    decreases calls
  {
    hide Allows;
    if calls != [] {
      var c := calls[0];
      var next := TableNext(hs, c.peer, budget, c.window, c.now);
      PeersIndependent(next, budget, calls[1..], peer);
      CallsOfFirst(calls, peer);
      if c.peer == peer && peer !in next {
        FullStaysClosed(next, budget, calls[1..], peer);
      }
    }
  }

  lemma {:induction false} TableAfterSplit(hs: Histories, budget: nat, calls: seq<Call>, more: seq<Call>)
    ensures TableAfter(hs, budget, calls + more) == TableAfter(TableAfter(hs, budget, calls), budget, more)
    decreases calls
  {
    hide TableNext;
    if calls == [] {
      assert calls + more == more;
    } else {
      assert (calls + more)[0] == calls[0] && (calls + more)[1..] == calls[1..] + more;
      TableAfterSplit(TableNext(hs, calls[0].peer, budget, calls[0].window, calls[0].now), budget, calls[1..], more);
    }
  }

  // The table's verdict on the k-th call of a run from the empty table.
  ghost predicate TableVerdict(budget: nat, calls: seq<Call>, k: nat)
    requires k < |calls|
  {
    TableAllows(TableAfter(map[], budget, calls[..k]), calls[k].peer, budget, calls[k].window, calls[k].now)
  }

  // The verdict of a window of the caller's own that has seen only the caller's calls.
  ghost predicate PrivateVerdict(budget: nat, calls: seq<Call>, k: nat)
    requires k < |calls|
  {
    Allows(Admissions([], budget, CallsOf(calls[..k], calls[k].peer)), budget, calls[k].window, calls[k].now)
  }

  // From the empty table, every verdict on a peer the table tracks by the end of the call is that of a window
  // of its own; a peer it does not track is refused.
  lemma VerdictsPrivate(budget: nat, calls: seq<Call>, k: nat)
    requires k < |calls|
    ensures TableVerdict(budget, calls, k) <==>
              calls[k].peer in TableAfter(map[], budget, calls[..k + 1]) && PrivateVerdict(budget, calls, k)
  {
    var c, before := calls[k], TableAfter(map[], budget, calls[..k]);
    assert calls[..k + 1] == calls[..k] + [c];
    TableAfterSplit(map[], budget, calls[..k], [c]);
    OneCall(before, budget, c);
    if c.peer in before {
      PeersIndependent(map[], budget, calls[..k], c.peer);
    } else {
      NeverAdmitted(map[], budget, calls[..k], c.peer);
    }
    hide Allows;
  }

  lemma OneCall(hs: Histories, budget: nat, c: Call)
    ensures TableAfter(hs, budget, [c]) == TableNext(hs, c.peer, budget, c.window, c.now)
  {
    hide TableNext;
    assert [c][1..] == [];
  }

  // A peer untracked after a run that left room has made no call.
  lemma {:induction false} NeverAdmitted(hs: Histories, budget: nat, calls: seq<Call>, peer: bytes)
    requires peer !in TableAfter(hs, budget, calls)
    ensures |TableAfter(hs, budget, calls)| < MAX_TRACKED_PEERS ==> CallsOf(calls, peer) == []
    decreases calls
  {
    hide Allows;
    if calls != [] {
      var c := calls[0];
      var next := TableNext(hs, c.peer, budget, c.window, c.now);
      NeverAdmitted(next, budget, calls[1..], peer);
      CallsOfFirst(calls, peer);
      if peer in next {
        TrackedStays(next, budget, calls[1..], peer);
      }
      if |hs| >= MAX_TRACKED_PEERS {
        SizeStays(hs, budget, calls);
      }
    }
  }

  lemma {:induction false} TrackedStays(hs: Histories, budget: nat, calls: seq<Call>, peer: bytes)
    requires peer in hs
    ensures peer in TableAfter(hs, budget, calls)
    decreases calls
  {
    hide Allows;
    if calls != [] {
      TrackedStays(TableNext(hs, calls[0].peer, budget, calls[0].window, calls[0].now), budget, calls[1..], peer);
    }
  }

  lemma {:induction false} SizeStays(hs: Histories, budget: nat, calls: seq<Call>)
    ensures |hs| <= |TableAfter(hs, budget, calls)|
    decreases calls
  {
    hide Allows;
    if calls != [] {
      var next := TableNext(hs, calls[0].peer, budget, calls[0].window, calls[0].now);
      SubsetCount(hs.Keys, next.Keys);
      assert |hs| == |hs.Keys| && |next| == |next.Keys|;
      SizeStays(next, budget, calls[1..]);
    }
  }

  lemma MapGrows(m: Histories, key: bytes, value: seq<u64>)
    requires key !in m
    ensures |m[key := value]| == |m| + 1
  {
    assert m[key := value].Keys == m.Keys + {key};
    assert |m[key := value]| == |m[key := value].Keys|;
  }

  class RateTable {
    const budget: nat
    const peers: array<bytes>
    const windows: seq<RateWindow>
    var used: nat
    ghost var histories: Histories

    // The slots' windows are sound and share nothing.
    ghost predicate WindowsSound()
      reads windows, set w <- windows :: w.stamps
    {
      && |windows| == MAX_TRACKED_PEERS
      && (forall i :: 0 <= i < MAX_TRACKED_PEERS ==> windows[i].Valid() && windows[i].budget == budget)
      && (forall i, j :: 0 <= i < j < MAX_TRACKED_PEERS ==>
            windows[i] != windows[j] && windows[i].stamps != windows[j].stamps)
    }

    // Slot i below `used` is peer i's private window.
    ghost predicate Valid()
      reads this, peers, windows, set w <- windows :: w.stamps
    {
      && WindowsSound()
      && peers.Length == MAX_TRACKED_PEERS
      && used == |histories| <= MAX_TRACKED_PEERS
      && (forall i, j :: 0 <= i < j < used ==> peers[i] != peers[j])
      && (forall i :: 0 <= i < used ==> peers[i] in histories && histories[peers[i]] == windows[i].history)
      && (forall i :: used <= i < MAX_TRACKED_PEERS ==> windows[i].history == [])
    }

    constructor (budget: nat)
      requires budget <= SERVE_BUDGET
      ensures Valid() && histories == map[] && this.budget == budget
    {
      this.budget := budget;
      peers := new bytes[MAX_TRACKED_PEERS](_ => []);
      used, histories := 0, map[];
      var ws := FreshWindows(budget);
      windows := ws;
    }

    static method FreshWindows(budget: nat) returns (ws: seq<RateWindow>)
      requires budget <= SERVE_BUDGET
      ensures |ws| == MAX_TRACKED_PEERS
      ensures forall k :: 0 <= k < |ws| ==> fresh(ws[k]) && fresh(ws[k].stamps)
      ensures forall k :: 0 <= k < |ws| ==> ws[k].Valid() && ws[k].budget == budget && ws[k].history == []
      ensures forall j, k :: 0 <= j < k < |ws| ==> ws[j] != ws[k] && ws[j].stamps != ws[k].stamps
    {
      hide RateWindow.Valid;
      ws := [];
      for i := 0 to MAX_TRACKED_PEERS
        invariant |ws| == i
        invariant forall k :: 0 <= k < i ==> fresh(ws[k]) && fresh(ws[k].stamps)
        invariant forall k :: 0 <= k < i ==> ws[k].Valid() && ws[k].budget == budget && ws[k].history == []
        invariant forall j, k :: 0 <= j < k < i ==> ws[j] != ws[k] && ws[j].stamps != ws[k].stamps
      {
        var w := new RateWindow(budget);
        ws := ws + [w];
      }
    }

    // As many tracked peers as slots leaves none out.
    lemma UntrackedUnknown(peer: bytes)
      requires Valid() && forall i :: 0 <= i < used ==> peers[i] != peer
      ensures peer !in histories
    {
      if peer in histories {
        DistinctWithin(peers[..used], histories.Keys - {peer});
      }
    }

    // One admission in slot i leaves every other slot's window as it was.
    method AdmitAt(i: nat, window: u64, now: u64) returns (admitted: bool)
      requires Valid() && i < used
      modifies `histories, windows[i], windows[i].stamps
      ensures Valid()
      ensures var peer := peers[i];
              && peer in old(histories)
              && admitted == Allows(old(histories)[peer], budget, window, now)
              && histories == TableNext(old(histories), peer, budget, window, now)
    {
      hide RateWindow.Valid, Allows;
      var w := windows[i];
      ghost var before := histories;
      admitted := w.Admit(window, now);
      assert forall k :: 0 <= k < MAX_TRACKED_PEERS && k != i ==>
               windows[k].Valid() && windows[k].history == old(windows[k].history);
      histories := histories[peers[i] := w.history];
      assert histories.Keys == before.Keys;
      assert |histories| == |histories.Keys| == |before.Keys| == |before|;
    }

    // Take the next free slot for a peer not tracked yet.
    method Track(peer: bytes)
      requires Valid() && used < MAX_TRACKED_PEERS && peer !in histories
      requires forall i :: 0 <= i < used ==> peers[i] != peer
      modifies `histories, `used, peers
      ensures Valid() && used == old(used) + 1 && peers[used - 1] == peer
      ensures histories == old(histories)[peer := []]
    {
      assert |windows| == MAX_TRACKED_PEERS;
      hide RateWindow.Valid, RateTable.WindowsSound;
      var slot := used;
      MapGrows(histories, peer, []);
      assert windows[slot].history == [];
      peers[slot] := peer;
      used := slot + 1;
      assert WindowsSound();
      histories := histories[peer := []];
      assert windows[slot].history == [] == histories[peers[slot]];
    }

    method Admit(peer: bytes, window: u64, now: u64) returns (admitted: bool)
      requires Valid()
      modifies this, peers, windows, set w <- windows :: w.stamps
      ensures Valid()
      ensures admitted <==> TableAllows(old(histories), peer, budget, window, now)
      ensures histories == TableNext(old(histories), peer, budget, window, now)
    {
      hide RateWindow.Valid, Allows;
      for i := 0 to used
        invariant forall k :: 0 <= k < i ==> peers[k] != peer
      {
        if peers[i] == peer {
          assert windows[i] in windows;
          admitted := AdmitAt(i, window, now);
          return;
        }
      }
      UntrackedUnknown(peer);
      if used >= MAX_TRACKED_PEERS {
        return false;
      }
      Track(peer);
      assert windows[used - 1] in windows;
      admitted := AdmitAt(used - 1, window, now);
    }
  }
}
