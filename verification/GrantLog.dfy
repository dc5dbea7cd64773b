/** The durable grant log: record format, replay of a possibly torn file, and what
    replaying any prefix of an intact log yields. */
module GrantLog {
  import opened Base
  import opened Wire

  const TAG_COMMIT: byte := 0x01
  const TAG_PUBLISHED: byte := 0x02
  const TAG_REVOKE: byte := 0x03
  const TAG_FIRST_RECEIPT: byte := 0x04
  const REC_COMMIT_LEN := 25
  const REC_PUBLISHED_LEN := 17
  const REC_REVOKE_LEN := 41
  const REC_FIRST_RECEIPT_LEN := 25
  const GRANT_ID_LEN := 16
  const SIG_PUBKEY_LEN := 32

  type GrantId = b: bytes | |b| == GRANT_ID_LEN witness seq(GRANT_ID_LEN, _ => 0)
  type SigPubkey = b: bytes | |b| == SIG_PUBKEY_LEN witness seq(SIG_PUBKEY_LEN, _ => 0)

  datatype Record =
    | Commit(id: GrantId, expiry: u64)
    | Published(id: GrantId)
    | Revoke(pubkey: SigPubkey, certExpiry: u64)
    | FirstReceipt(id: GrantId, time: u64)

  // What the ledger remembers; `order` lists commits as they came.
  datatype State = State(
    consumed: map<GrantId, u64>, order: seq<GrantId>, published: set<GrantId>,
    revoked: map<SigPubkey, u64>, receipts: map<GrantId, u64>)

  const EMPTY: State := State(map[], [], {}, map[], map[])

  // ---------- records on disk ----------

  function Encode(r: Record): (b: bytes)
    ensures |b| > 0 && RecordLen(b[0]) == Some(|b|)
  {
    match r
    case Commit(id, expiry) => [TAG_COMMIT] + id + U64Bytes(expiry)
    case Published(id) => [TAG_PUBLISHED] + id
    case Revoke(pk, expiry) => [TAG_REVOKE] + pk + U64Bytes(expiry)
    case FirstReceipt(id, time) => [TAG_FIRST_RECEIPT] + id + U64Bytes(time)
  }

  function RecordLen(tag: byte): Option<nat> {
    if tag == TAG_COMMIT then Some(REC_COMMIT_LEN)
    else if tag == TAG_PUBLISHED then Some(REC_PUBLISHED_LEN)
    else if tag == TAG_REVOKE then Some(REC_REVOKE_LEN)
    else if tag == TAG_FIRST_RECEIPT then Some(REC_FIRST_RECEIPT_LEN)
    else None
  }

  function Decode(rec: bytes): Record
    requires |rec| > 0 && RecordLen(rec[0]) == Some(|rec|)
  {
    if rec[0] == TAG_COMMIT then Commit(rec[1..17], U64Of(rec[17..]))
    else if rec[0] == TAG_PUBLISHED then Published(rec[1..])
    else if rec[0] == TAG_REVOKE then Revoke(rec[1..33], U64Of(rec[33..]))
    else FirstReceipt(rec[1..17], U64Of(rec[17..]))
  }

  lemma DecodeEncode(r: Record)
    ensures Decode(Encode(r)) == r
  {
    match r
    case Commit(id, expiry) =>
      U64RoundTrip(expiry);
      assert Encode(r)[1..17] == id && Encode(r)[17..] == U64Bytes(expiry);
    case Published(id) =>
      assert Encode(r)[1..] == id;
    case Revoke(pk, expiry) =>
      U64RoundTrip(expiry);
      assert Encode(r)[1..33] == pk && Encode(r)[33..] == U64Bytes(expiry);
    case FirstReceipt(id, time) =>
      U64RoundTrip(time);
      assert Encode(r)[1..17] == id && Encode(r)[17..] == U64Bytes(time);
  }

  lemma EncodeDecode(rec: bytes)
    requires |rec| > 0 && RecordLen(rec[0]) == Some(|rec|)
    ensures Encode(Decode(rec)) == rec
  {
    if rec[0] == TAG_REVOKE {
      assert rec == [rec[0]] + rec[1..33] + rec[33..];
    } else if rec[0] == TAG_PUBLISHED {
      assert rec == [rec[0]] + rec[1..];
    } else {
      assert rec == [rec[0]] + rec[1..17] + rec[17..];
    }
  }

  function EncodeAll(rs: seq<Record>): bytes {
    if rs == [] then [] else Encode(rs[0]) + EncodeAll(rs[1..])
  }

  // The whole records at the front of a file, up to a torn tail or an unknown tag.
  function Records(buf: bytes): seq<Record> {
    if buf == [] then [] else
    match RecordLen(buf[0])
    case None => []
    case Some(need) =>
      if |buf| < need then [] else [Decode(buf[..need])] + Records(buf[need..])
  }

  // Does the scan stop at an unknown tag?
  predicate Corrupt(buf: bytes) {
    if buf == [] then false else
    match RecordLen(buf[0])
    case None => true
    case Some(need) => |buf| >= need && Corrupt(buf[need..])
  }

  // A torn tail: nothing, or a valid tag without the bytes its record needs.
  predicate Torn(tail: bytes) {
    tail == [] || (RecordLen(tail[0]).Some? && |tail| < RecordLen(tail[0]).value)
  }

  // A whole record in front is read first; the rest of the file is read as if it stood alone.
  lemma RecordInFront(r: Record, more: bytes)
    ensures Records(Encode(r) + more) == [r] + Records(more)
    ensures Corrupt(Encode(r) + more) == Corrupt(more)
  {
    var first := Encode(r);
    var buf := first + more;
    assert buf[0] == first[0] && buf[..|first|] == first && buf[|first|..] == more;
    DecodeEncode(r);
  }

  lemma {:induction false} RecordsOfLog(rs: seq<Record>, rest: bytes)
    ensures Records(EncodeAll(rs) + rest) == rs + Records(rest)
    ensures Corrupt(EncodeAll(rs) + rest) == Corrupt(rest)
  {
    hide Records, Corrupt, Encode;
    if rs == [] {
      assert EncodeAll(rs) + rest == rest;
    } else {
      var more := EncodeAll(rs[1..]) + rest;
      assert EncodeAll(rs) + rest == Encode(rs[0]) + more;
      RecordInFront(rs[0], more);
      RecordsOfLog(rs[1..], rest);
      assert rs == [rs[0]] + rs[1..];
    }
  }

  lemma TornReadsNothing(tail: bytes)
    requires Torn(tail)
    ensures Records(tail) == [] && !Corrupt(tail)
  {
  }

  // Replay succeeds exactly on whole records followed by a torn tail, and then reads those records.
  lemma {:induction false} IntactIffRecordsThenTorn(buf: bytes)
    ensures !Corrupt(buf) <==> exists tail: bytes :: Torn(tail) && buf == EncodeAll(Records(buf)) + tail
  {
    if tail: bytes :| Torn(tail) && buf == EncodeAll(Records(buf)) + tail {
      RecordsOfLog(Records(buf), tail);
      TornReadsNothing(tail);
    }
    if !Corrupt(buf) {
      var tail := TornTail(buf);
    }
  }

  lemma {:induction false} TornTail(buf: bytes) returns (tail: bytes)
    requires !Corrupt(buf)
    ensures Torn(tail) && buf == EncodeAll(Records(buf)) + tail
  {
    hide Encode, Decode;
    if Torn(buf) {
      TornReadsNothing(buf);
      tail := buf;
      assert buf == [] + tail;
    } else {
      var need := RecordLen(buf[0]).value;
      var first, more := buf[..need], buf[need..];
      EncodeDecode(first);
      assert buf == first + more;
      RecordInFront(Decode(first), more);
      tail := TornTail(more);
      assert Records(buf)[1..] == Records(more);
      assert buf == first + (EncodeAll(Records(more)) + tail);
    }
  }

  // How many of the records fit whole in the first n bytes.
  function WholeIn(rs: seq<Record>, n: nat): (k: nat)
    ensures k <= |rs|
  {
    if rs == [] || n < |Encode(rs[0])| then 0
    else 1 + WholeIn(rs[1..], n - |Encode(rs[0])|)
  }

  // Cutting an intact log at any byte leaves the records that fit whole and a torn tail.
  lemma {:induction false} CutLog(rs: seq<Record>, n: nat)
    requires n <= |EncodeAll(rs)|
    ensures Records(EncodeAll(rs)[..n]) == rs[..WholeIn(rs, n)]
    ensures !Corrupt(EncodeAll(rs)[..n])
    ensures |EncodeAll(rs[..WholeIn(rs, n)])| <= n
    ensures WholeIn(rs, n) < |rs| ==> n < |EncodeAll(rs[..WholeIn(rs, n) + 1])|
  {
    hide Records, Corrupt, Encode;
    if rs == [] {
      TornReadsNothing([]);
      assert EncodeAll(rs)[..n] == [];
    } else {
      var first := Encode(rs[0]);
      if n < |first| {
        assert EncodeAll(rs)[..n] == first[..n];
        TornReadsNothing(first[..n]);
        assert rs[..0 + 1] == [rs[0]];
        assert EncodeAll([rs[0]]) == first + EncodeAll([]);
      } else {
        var m, k := n - |first|, WholeIn(rs[1..], n - |first|);
        CutLog(rs[1..], m);
        assert EncodeAll(rs)[..n] == first + EncodeAll(rs[1..])[..m];
        RecordInFront(rs[0], EncodeAll(rs[1..])[..m]);
        EncodeTake(rs, k + 1);
        if k < |rs[1..]| {
          EncodeTake(rs, k + 2);
        }
      }
    }
  }

  lemma EncodeTake(rs: seq<Record>, k: nat)
    requires 0 < k <= |rs|
    ensures rs[..k] == [rs[0]] + rs[1..][..k - 1]
    ensures EncodeAll(rs[..k]) == Encode(rs[0]) + EncodeAll(rs[1..][..k - 1])
  {
    assert rs[..k][1..] == rs[1..][..k - 1];
  }

  lemma {:induction false} EncodeAllAppend(rs: seq<Record>, r: Record)
    ensures EncodeAll(rs + [r]) == EncodeAll(rs) + Encode(r)
  {
    if rs == [] {
      assert rs + [r] == [r];
      assert EncodeAll([r]) == Encode(r) + EncodeAll([]);
    } else {
      assert (rs + [r])[1..] == rs[1..] + [r];
      EncodeAllAppend(rs[1..], r);
    }
  }

  // ---------- replay ----------

  function Forget(live: map<GrantId, u64>, id: GrantId): map<GrantId, u64> {
    live - {id}
  }

  // One record on top of what is remembered: commits queue up once, publishing ends a commit,
  // the first receipt of a grant stands.
  function Apply(s: State, r: Record): State {
    match r
    case Commit(id, expiry) =>
      s.(order := if id !in s.published && id !in s.consumed then s.order + [id] else s.order,
         consumed := s.consumed[id := expiry])
    case Published(id) =>
      s.(consumed := Forget(s.consumed, id), published := s.published + {id})
    case Revoke(pk, expiry) =>
      s.(revoked := s.revoked[pk := expiry])
    case FirstReceipt(id, time) =>
      if id in s.receipts then s else s.(receipts := s.receipts[id := time])
  }

  function ApplyAll(s: State, rs: seq<Record>): State
    decreases rs
  {
    if rs == [] then s else ApplyAll(Apply(s, rs[0]), rs[1..])
  }

  lemma {:induction false} ApplyAllSplit(s: State, rs: seq<Record>, ts: seq<Record>)
    ensures ApplyAll(s, rs + ts) == ApplyAll(ApplyAll(s, rs), ts)
    decreases rs
  {
    if rs == [] {
      assert rs + ts == ts;
    } else {
      assert (rs + ts)[0] == rs[0] && (rs + ts)[1..] == rs[1..] + ts;
      ApplyAllSplit(Apply(s, rs[0]), rs[1..], ts);
    }
  }

  lemma ApplyAppended(s: State, rs: seq<Record>, r: Record)
    ensures ApplyAll(s, rs + [r]) == Apply(ApplyAll(s, rs), r)
  {
    ApplyAllSplit(s, rs, [r]);
    assert [r][1..] == [];
  }

  // What replaying a file leaves in memory.
  function Replayed(buf: bytes): State {
    ApplyAll(EMPTY, Records(buf))
  }

  // Commits never published, oldest first.
  function Orphans(s: State): seq<GrantId> {
    Kept(s.order, s.consumed)
  }

  function Kept(order: seq<GrantId>, live: map<GrantId, u64>): (r: seq<GrantId>)
    ensures forall id :: id in r <==> id in order && id in live
  {
    if order == [] then []
    else (if order[0] in live then [order[0]] else []) + Kept(order[1..], live)
  }
}
