/** Transport packets after the handshake: sealed under a counter that never repeats, opened through the
    session's replay window. */
module Transport {
  import opened Base
  import opened Wire
  import opened Noise
  import SessionWindow

  const HEADER_SIZE := 16
  const REKEY_AFTER_MESSAGES: u64 := 0x1_0000_0000_0000
  const MSG_TYPE_TRANSPORT: byte := 4

  datatype TransportError = RekeyRequired | OpenFailed | Replay | OutOfRange

  // Type, three zero bytes, the receiver's index, the counter.
  function Header(receiver: u32, counter: u64): (h: bytes)
    ensures |h| == HEADER_SIZE
  {
    [MSG_TYPE_TRANSPORT, 0, 0, 0] + U32Bytes(receiver) + U64Bytes(counter)
  }

  // The header is authenticated with the payload.
  function Packet(c: Suite, key: bytes, receiver: u32, counter: u64, payload: bytes): bytes {
    var h := Header(receiver, counter);
    h + c.seal(key, Nonce(counter), h, payload)
  }

  function CounterOf(packet: bytes): u64
    requires |packet| >= HEADER_SIZE
  {
    U64Of(packet[8..16])
  }

  // Decryption without the replay check.
  function Unseal(c: Suite, key: bytes, packet: bytes): Option<bytes>
    requires |packet| >= HEADER_SIZE
  {
    c.open(key, Nonce(CounterOf(packet)), packet[..HEADER_SIZE], packet[HEADER_SIZE..])
  }

  // A packet says which counter sealed it, and opens under the key that sealed it to what was put in.
  lemma PacketOpens(c: Suite, key: bytes, receiver: u32, counter: u64, payload: bytes)
    requires Laws(c)
    ensures var p := Packet(c, key, receiver, counter, payload);
            && |p| == HEADER_SIZE + |payload| + TAGLEN && CounterOf(p) == counter && Unseal(c, key, p) == Some(payload)
            && p[..4] == [4, 0, 0, 0] && p[4..8] == U32Bytes(receiver) && p[8..16] == U64Bytes(counter)
            && p[16..] == c.seal(key, [0, 0, 0, 0] + U64Bytes(counter), p[..16], payload)
  {
    var h := Header(receiver, counter);
    var p := Packet(c, key, receiver, counter, payload);
    assert p[..HEADER_SIZE] == h && p[HEADER_SIZE..] == c.seal(key, Nonce(counter), h, payload);
    assert p[..4] == [4, 0, 0, 0] && p[4..8] == U32Bytes(receiver) && p[8..16] == U64Bytes(counter);
    assert Nonce(counter) == [0, 0, 0, 0] + U64Bytes(counter);
    U64RoundTrip(counter);
  }

  // No two counters share a nonce: a sender, which uses no counter twice, never seals twice under one nonce.
  lemma NoncesDistinct(a: u64, b: u64)
    requires Nonce(a) == Nonce(b)
    ensures a == b
  {
    assert Nonce(a)[4..] == U64Bytes(a) && Nonce(b)[4..] == U64Bytes(b);
    U64RoundTrip(a);
    U64RoundTrip(b);
  }

  class Sender {
    const key: bytes
    const receiver: u32
    var counter: u64
    ghost var sealed: seq<u64>

    // The counters used so far are 0, 1, 2 and so on: none has been used twice.
    ghost predicate Valid()
      reads this
    {
      && counter <= REKEY_AFTER_MESSAGES && |sealed| == counter
      && forall i :: 0 <= i < |sealed| ==> sealed[i] == i
    }

    constructor (key: bytes, receiver: u32)
      ensures Valid() && sealed == [] && this.key == key && this.receiver == receiver
    {
      this.key, this.receiver := key, receiver;
      counter, sealed := 0, [];
    }

    // Room for the packet first; then the counter's limit; a failure uses no counter.
    method Seal(c: Suite, payload: bytes, room: nat) returns (r: Result<bytes, TransportError>)
      requires Valid()
      modifies this
      ensures Valid()
      ensures r == if room < HEADER_SIZE + |payload| + TAGLEN then Err(OutOfRange)
                   else if old(counter) >= REKEY_AFTER_MESSAGES then Err(RekeyRequired)
                   else Ok(Packet(c, key, receiver, old(counter), payload))
      ensures sealed == if r.Ok? then old(sealed) + [old(counter)] else old(sealed)
    {
      if room < HEADER_SIZE + |payload| + TAGLEN {
        return Err(OutOfRange);
      }
      if counter >= REKEY_AFTER_MESSAGES {
        return Err(RekeyRequired);
      }
      r := Ok(Packet(c, key, receiver, counter, payload));
      sealed := sealed + [counter];
      counter := counter + 1;
    }
  }

  // The receiver's answer, and the counters it then remembers. The window moves only for packets that decrypt.
  ghost function Receive(c: Suite, key: bytes, seen: set<u64>, packet: bytes, room: nat)
    : (Result<bytes, TransportError>, set<u64>)
  {
    if |packet| < HEADER_SIZE then (Err(OutOfRange), seen)
    else if |packet| < HEADER_SIZE + TAGLEN then (Err(OpenFailed), seen)
    else if room < |packet| - HEADER_SIZE - TAGLEN then (Err(OutOfRange), seen)
    else
      match Unseal(c, key, packet)
      case None => (Err(OpenFailed), seen)
      case Some(payload) =>
        (if SessionWindow.Fresh(seen, CounterOf(packet)) then Ok(payload) else Err(Replay),
         SessionWindow.Remember(seen, CounterOf(packet)))
  }

  class Receiver {
    const key: bytes
    const window: SessionWindow.ReplayWindow

    constructor (key: bytes)
      ensures window.Valid() && window.seen == {} && fresh(window) && this.key == key
    {
      this.key := key;
      window := new SessionWindow.ReplayWindow();
    }

    method Open(c: Suite, packet: bytes, room: nat) returns (r: Result<bytes, TransportError>)
      requires window.Valid()
      modifies window
      ensures window.Valid()
      ensures (r, window.seen) == Receive(c, key, old(window.seen), packet, room)
    {
      if |packet| < HEADER_SIZE {
        return Err(OutOfRange);
      }
      if |packet| < HEADER_SIZE + TAGLEN {
        return Err(OpenFailed);
      }
      if room < |packet| - HEADER_SIZE - TAGLEN {
        return Err(OutOfRange);
      }
      var opens := Unseal(c, key, packet);
      if opens.None? {
        return Err(OpenFailed);
      }
      var isFresh := window.Check(CounterOf(packet));
      if !isFresh {
        return Err(Replay);
      }
      return Ok(opens.value);
    }
  }

  // ---------- what arrives ----------

  ghost function ReceiveAll(c: Suite, key: bytes, seen: set<u64>, packets: seq<bytes>, room: nat)
    : (rs: seq<Result<bytes, TransportError>>)
    ensures |rs| == |packets|
    decreases packets
  {
    if packets == [] then []
    else
      var (r, after) := Receive(c, key, seen, packets[0], room);
      [r] + ReceiveAll(c, key, after, packets[1..], room)
  }

  // What one sender's packets look like as they arrive: repeated, reordered or lost at will. Arrival k is
  // the packet sealed under counter arrivals[k].
  ghost function OnTheWire(c: Suite, key: bytes, receiver: u32, payloads: seq<bytes>, arrivals: seq<u64>)
    : (ps: seq<bytes>)
    requires Sealed(payloads, arrivals)
    ensures |ps| == |arrivals|
    decreases arrivals
  {
    if arrivals == [] then []
    else [Packet(c, key, receiver, arrivals[0], payloads[arrivals[0]])]
         + OnTheWire(c, key, receiver, payloads, arrivals[1..])
  }

  ghost predicate Sealed(payloads: seq<bytes>, arrivals: seq<u64>) {
    forall i :: 0 <= i < |arrivals| ==> arrivals[i] < |payloads|
  }

  ghost predicate Fits(payloads: seq<bytes>, room: nat) {
    forall i :: 0 <= i < |payloads| ==> |payloads[i]| <= room
  }

  // Each arrival is answered by its payload, or refused as a replay, as the window decides.
  lemma {:induction false} Arrival(c: Suite, key: bytes, receiver: u32, payloads: seq<bytes>, arrivals: seq<u64>,
                                   seen: set<u64>, room: nat, k: nat)
    requires Laws(c) && Sealed(payloads, arrivals) && Fits(payloads, room) && k < |arrivals|
    ensures var rs := ReceiveAll(c, key, seen, OnTheWire(c, key, receiver, payloads, arrivals), room);
            rs[k] == if SessionWindow.Fresh(SessionWindow.RememberAll(seen, arrivals[..k]), arrivals[k])
                     then Ok(payloads[arrivals[k]]) else Err(Replay)
    decreases arrivals
  {
    hide Laws, SessionWindow.Fresh, SessionWindow.Remember, Packet, Unseal, CounterOf;
    var a := arrivals[0];
    PacketOpens(c, key, receiver, a, payloads[a]);
    var after := SessionWindow.Remember(seen, a);
    var packets := OnTheWire(c, key, receiver, payloads, arrivals);
    assert packets[1..] == OnTheWire(c, key, receiver, payloads, arrivals[1..]);
    assert Receive(c, key, seen, packets[0], room).1 == after;
    if k > 0 {
      Arrival(c, key, receiver, payloads, arrivals[1..], after, room, k - 1);
      assert arrivals[1..][..k - 1] == arrivals[..k][1..];
    }
  }

  ghost function Answers(c: Suite, key: bytes, receiver: u32, payloads: seq<bytes>, arrivals: seq<u64>, room: nat)
    : (rs: seq<Result<bytes, TransportError>>)
    requires Sealed(payloads, arrivals)
    ensures |rs| == |arrivals|
  {
    ReceiveAll(c, key, {}, OnTheWire(c, key, receiver, payloads, arrivals), room)
  }

  lemma AnswerIs(c: Suite, key: bytes, receiver: u32, payloads: seq<bytes>, arrivals: seq<u64>, room: nat, k: nat)
    requires Laws(c) && Sealed(payloads, arrivals) && Fits(payloads, room) && k < |arrivals|
    ensures Answers(c, key, receiver, payloads, arrivals, room)[k] ==
              if SessionWindow.Verdict(arrivals, k) then Ok(payloads[arrivals[k]]) else Err(Replay)
  {
    Arrival(c, key, receiver, payloads, arrivals, {}, room, k);
  }

  lemma NotBothFresh(arrivals: seq<u64>, j: nat, k: nat)
    requires j < k < |arrivals| && arrivals[j] == arrivals[k] != 0
    ensures !(SessionWindow.Verdict(arrivals, j) && SessionWindow.Verdict(arrivals, k))
  {
    hide SessionWindow.Verdict;
    SessionWindow.AtMostOnceIffNonzero(arrivals[j]);
    assert SessionWindow.AtMostOnce(arrivals[j]);
  }

  // No payload but the very first is delivered twice, whatever the network does.
  lemma DeliveredAtMostOnce(c: Suite, key: bytes, receiver: u32, payloads: seq<bytes>, arrivals: seq<u64>,
                            room: nat, j: nat, k: nat)
    requires Laws(c) && Sealed(payloads, arrivals) && Fits(payloads, room)
    requires j < k < |arrivals| && arrivals[j] == arrivals[k] != 0
    ensures var rs := Answers(c, key, receiver, payloads, arrivals, room); rs[j].Err? || rs[k].Err?
  {
    hide Laws, Answers, SessionWindow.Verdict;
    AnswerIs(c, key, receiver, payloads, arrivals, room, j);
    AnswerIs(c, key, receiver, payloads, arrivals, room, k);
    NotBothFresh(arrivals, j, k);
  }

  // The very first can be: its counter is 0, which the window takes for an empty one.
  lemma FirstDeliveredTwice(c: Suite, key: bytes, receiver: u32, first: bytes)
    requires Laws(c)
    ensures Sealed([first], [0, 0]) && Answers(c, key, receiver, [first], [0, 0], |first|) == [Ok(first), Ok(first)]
  {
    var arrivals: seq<u64> := [0, 0];
    hide Laws, Answers, SessionWindow.Verdict;
    AnswerIs(c, key, receiver, [first], arrivals, |first|, 0);
    AnswerIs(c, key, receiver, [first], arrivals, |first|, 1);
    SessionWindow.ZeroAcceptedTwice();
  }

  // Exactly when: the first packet's second arrival yields its payload again if and only if all counters that came
  // before lie below 64 and the packet has not yet arrived after another.
  lemma FirstDeliveredAgainIff(c: Suite, key: bytes, receiver: u32, payloads: seq<bytes>, arrivals: seq<u64>,
                               room: nat, j: nat, k: nat)
    requires Laws(c) && Sealed(payloads, arrivals) && Fits(payloads, room)
    requires j < k < |arrivals| && arrivals[j] == arrivals[k] == 0
    ensures var rs := Answers(c, key, receiver, payloads, arrivals, room);
            rs[j] == rs[k] == Ok(payloads[0]) <==>
              && SessionWindow.AllWithinSpan(arrivals[..k])
              && !SessionWindow.ZeroAfterNonzero(arrivals[..k])
  {
    hide Laws, Answers, SessionWindow.Verdict, SessionWindow.AllWithinSpan, SessionWindow.ZeroAfterNonzero;
    AnswerIs(c, key, receiver, payloads, arrivals, room, j);
    AnswerIs(c, key, receiver, payloads, arrivals, room, k);
    SessionWindow.ZeroAdmittedTwiceIff(arrivals, j, k);
  }

  // A packet that arrives for the first time, overtaken by less than 64, is delivered.
  lemma ReorderedDelivered(c: Suite, key: bytes, receiver: u32, payloads: seq<bytes>, arrivals: seq<u64>,
                           room: nat, k: nat)
    requires Laws(c) && Sealed(payloads, arrivals) && Fits(payloads, room) && k < |arrivals|
    requires forall j :: 0 <= j < k ==> arrivals[j] != arrivals[k] && arrivals[j] < arrivals[k] as int + 64
    ensures Answers(c, key, receiver, payloads, arrivals, room)[k] == Ok(payloads[arrivals[k]])
  {
    hide Laws, Answers, SessionWindow.Verdict;
    AnswerIs(c, key, receiver, payloads, arrivals, room, k);
    SessionWindow.ReorderingTolerated(arrivals, k);
  }

  // Arriving in the order they were sealed, all are delivered.
  lemma InOrderAllDelivered(c: Suite, key: bytes, receiver: u32, payloads: seq<bytes>, arrivals: seq<u64>,
                            room: nat, k: nat)
    requires Laws(c) && Fits(payloads, room) && |arrivals| == |payloads|
    requires (forall i :: 0 <= i < |arrivals| ==> arrivals[i] == i) && k < |arrivals|
    ensures Sealed(payloads, arrivals) && Answers(c, key, receiver, payloads, arrivals, room)[k] == Ok(payloads[k])
  {
    Arrival(c, key, receiver, payloads, arrivals, {}, room, k);
    SeenBelow(arrivals, k);
  }

  lemma {:induction false} SeenBelow(arrivals: seq<u64>, k: nat)
    requires k <= |arrivals| && forall i :: 0 <= i < |arrivals| ==> arrivals[i] == i
    ensures forall a <- SessionWindow.RememberAll({}, arrivals[..k]) :: a < k
  {
    if k > 0 {
      SeenBelow(arrivals, k - 1);
      assert arrivals[..k] == arrivals[..k - 1] + [arrivals[k - 1]];
      SessionWindow.RememberAllSplit({}, arrivals[..k - 1], [arrivals[k - 1]]);
      var before := SessionWindow.RememberAll({}, arrivals[..k - 1]);
      assert SessionWindow.RememberAll(before, [arrivals[k - 1]])
          == SessionWindow.RememberAll(SessionWindow.Remember(before, arrivals[k - 1]), []);
    }
  }
}
