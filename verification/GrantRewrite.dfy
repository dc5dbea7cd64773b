/** What recovery returns after a commit that first had to prune: the file is rewritten, and the new record
    goes over its beginning. */
module GrantRewrite {
  import opened Base
  import opened Collections
  import opened GrantLog
  import opened GrantLedger
  import Wire

  // ---------- a file holds no more than its bytes pay for ----------

  // The bytes the entries of a state take on disk.
  function Weight(s: State): nat {
    REC_COMMIT_LEN * |s.consumed| + REC_REVOKE_LEN * |s.revoked| + REC_FIRST_RECEIPT_LEN * |s.receipts|
  }

  lemma MapAdds<K, V>(m: map<K, V>, k: K, v: V)
    ensures |m[k := v]| == if k in m then |m| else |m| + 1
  {
    assert m[k := v].Keys == m.Keys + {k};
    assert |m[k := v]| == |m[k := v].Keys| && |m| == |m.Keys|;
  }

  lemma ForgetSize(m: map<GrantId, u64>, id: GrantId)
    ensures |Forget(m, id)| <= |m|
  {
    SubsetCount(Forget(m, id).Keys, m.Keys);
    assert |Forget(m, id)| == |Forget(m, id).Keys| && |m| == |m.Keys|;
  }

  lemma ApplyWeight(s: State, r: Record)
    ensures Weight(Apply(s, r)) <= Weight(s) + |Encode(r)|
  {
    match r
    case Commit(id, expiry) => MapAdds(s.consumed, id, expiry);
    case Published(id) => ForgetSize(s.consumed, id);
    case Revoke(pk, expiry) => MapAdds(s.revoked, pk, expiry);
    case FirstReceipt(id, time) => MapAdds(s.receipts, id, time);
  }

  lemma {:induction false} ReplayWeight(s: State, rs: seq<Record>)
    ensures Weight(ApplyAll(s, rs)) <= Weight(s) + |EncodeAll(rs)|
    decreases rs
  {
    hide Weight, Apply, Encode;
    if rs != [] {
      ApplyWeight(s, rs[0]);
      ReplayWeight(Apply(s, rs[0]), rs[1..]);
    }
  }

  lemma {:induction false} RecordsWithin(buf: bytes)
    ensures |EncodeAll(Records(buf))| <= |buf|
  {
    hide Encode, Decode;
    if buf != [] && RecordLen(buf[0]).Some? && |buf| >= RecordLen(buf[0]).value {
      var need := RecordLen(buf[0]).value;
      RecordsWithin(buf[need..]);
      EncodeDecode(buf[..need]);
      assert Records(buf)[1..] == Records(buf[need..]);
    }
  }

  // Recovery cannot return more than fits in the file.
  lemma RecoveryWithin(buf: bytes)
    ensures Weight(Replayed(buf)) <= |buf|
  {
    RecordsWithin(buf);
    ReplayWeight(EMPTY, Records(buf));
  }

  lemma {:induction false} EncodeAllSplit(rs: seq<Record>, ts: seq<Record>)
    ensures EncodeAll(rs + ts) == EncodeAll(rs) + EncodeAll(ts)
  {
    if rs == [] {
      assert rs + ts == ts;
    } else {
      assert (rs + ts)[1..] == rs[1..] + ts;
      EncodeAllSplit(rs[1..], ts);
    }
  }

  // A log of records of one length.
  lemma {:induction false} EvenLog(rs: seq<Record>, len: nat)
    requires forall r <- rs :: |Encode(r)| == len
    ensures |EncodeAll(rs)| == len * |rs|
  {
    hide Encode;
    if rs != [] {
      EvenLog(rs[1..], len);
    }
  }

  lemma EnumeratedSize<K(!new), V(!new)>(m: map<K, V>, s: seq<(K, V)>)
    requires Enumerates(m, s)
    ensures |s| == |m|
  {
    var keys := seq(|s|, i requires 0 <= i < |s| => s[i].0);
    DistinctCount(keys);
    assert (set k <- keys) == m.Keys by {
      forall k | k in m ensures k in keys {
        var i :| 0 <= i < |s| && s[i] == (k, m[k]);
        assert keys[i] == k;
      }
      forall k | k in keys ensures k in m {
        var i :| 0 <= i < |keys| && keys[i] == k;
        assert s[i] in s;
      }
    }
    assert |m| == |m.Keys|;
  }

  // An image takes exactly the bytes of its entries.
  lemma ImageSize(s: State, image: bytes)
    requires ImageOf(s, image)
    ensures |image| == Weight(s)
  {
    var cs: seq<(GrantId, u64)>, rs: seq<(SigPubkey, u64)>, fs: seq<(GrantId, u64)> :|
      Lists(s, cs, rs, fs) && image == Image(cs, rs, fs);
    EnumeratedSize(s.consumed, cs);
    EnumeratedSize(s.revoked, rs);
    EnumeratedSize(s.receipts, fs);
    hide Enumerates;
    ImageLength(cs, rs, fs);
  }

  lemma ImageLength(cs: seq<(GrantId, u64)>, rs: seq<(SigPubkey, u64)>, fs: seq<(GrantId, u64)>)
    ensures |Image(cs, rs, fs)| == REC_COMMIT_LEN * |cs| + REC_REVOKE_LEN * |rs| + REC_FIRST_RECEIPT_LEN * |fs|
  {
    EncodeAllSplit(Commits(cs) + Revokes(rs), Receipts(fs));
    EncodeAllSplit(Commits(cs), Revokes(rs));
    EvenLog(Commits(cs), REC_COMMIT_LEN);
    EvenLog(Revokes(rs), REC_REVOKE_LEN);
    EvenLog(Receipts(fs), REC_FIRST_RECEIPT_LEN);
    hide EncodeAll;
  }

  // ---------- the commit that rewrote the file ----------

  // What recovery would return is all that is in memory.
  ghost predicate RecoversAll(file: bytes, memory: State) {
    && !Corrupt(file)
    && Replayed(file).consumed == memory.consumed
    && Replayed(file).revoked == memory.revoked
    && Replayed(file).receipts == memory.receipts
  }

  // No unexpired commit, no revocation, no anchor.
  predicate NothingSurvives(s: State, now: u64) {
    Prune(s, now).consumed == map[] && s.revoked == map[] && s.receipts == map[]
  }

  // Such a commit prunes, then adds its record to what is kept.
  lemma CommitsAfterPrune(s: State, id: GrantId, expiry: u64, now: u64)
    requires RewritesAndCommits(s, id, expiry, now)
    ensures var kept := Prune(s, now);
            && id !in kept.consumed && id !in kept.published && kept.revoked == s.revoked && kept.receipts == s.receipts
            && (kept.consumed == map[] ==> kept.order == [])
            && CommitState(s, id, expiry, now).1 == Apply(kept, Commit(id, expiry))
  {
    KeptNothing(s.order);
  }

  // After a commit that rewrote the file, recovery returns what memory holds exactly when nothing had
  // survived the pruning. In every other case the file is too short to hold it all.
  lemma RewriteRecoversIffNothingSurvives(s: State, id: GrantId, expiry: u64, now: u64, file: bytes)
    requires RewritesAndCommits(s, id, expiry, now) && LeftBy(s, id, expiry, now, file)
    ensures var memory := CommitState(s, id, expiry, now).1;
            && (RecoversAll(file, memory) <==> NothingSurvives(s, now))
            && (NothingSurvives(s, now) ==> Replayed(file) == memory.(published := {}))
  {
    hide ImageOf, RecoversAll, Replayed, WriteAt, Encode, Apply, CommitState, Prune, RewritesAndCommits;
    var kept := Prune(s, now);
    var image :| ImageOf(kept, image) && file == WriteAt(image, 0, Encode(Commit(id, expiry)));
    CommitsAfterPrune(s, id, expiry, now);
    if NothingSurvives(s, now) {
      AloneInFile(kept, id, expiry, image);
    } else {
      TooShort(kept, id, expiry, image);
    }
  }

  // Written over an image of something, the file cannot hold that and the new commit as well.
  lemma TooShort(kept: State, id: GrantId, expiry: u64, image: bytes)
    requires ImageOf(kept, image) && id !in kept.consumed
    requires kept.consumed != map[] || kept.revoked != map[] || kept.receipts != map[]
    ensures !RecoversAll(WriteAt(image, 0, Encode(Commit(id, expiry))), Apply(kept, Commit(id, expiry)))
  {
    var rec := Encode(Commit(id, expiry));
    ImageSize(kept, image);
    SomethingWeighs(kept);
    RecoveryWithin(WriteAt(image, 0, rec));
    MapAdds(kept.consumed, id, expiry);
    hide ImageOf, Replayed, Encode;
    assert |WriteAt(image, 0, rec)| == |image|;
  }

  lemma SomethingWeighs(s: State)
    requires s.consumed != map[] || s.revoked != map[] || s.receipts != map[]
    ensures Weight(s) >= REC_COMMIT_LEN
  {
    assert |s.consumed| == 0 ==> s.consumed == map[];
    assert |s.revoked| == 0 ==> s.revoked == map[];
    assert |s.receipts| == 0 ==> s.receipts == map[];
  }

  lemma AloneInFile(kept: State, id: GrantId, expiry: u64, image: bytes)
    requires ImageOf(kept, image) && kept.consumed == map[] && kept.revoked == map[] && kept.receipts == map[]
    requires kept.order == [] && id !in kept.published
    ensures var file, memory := WriteAt(image, 0, Encode(Commit(id, expiry))), Apply(kept, Commit(id, expiry));
            RecoversAll(file, memory) && Replayed(file) == memory.(published := {})
  {
    var rec := Commit(id, expiry);
    ImageSize(kept, image);
    assert WriteAt(image, 0, Encode(rec)) == Encode(rec) + [];
    NothingLeft();
    RecordInFront(rec, []);
    hide ImageOf, Records, Corrupt, Encode;
    assert [rec] + [] == [rec] && [rec][1..] == [];
    assert ApplyAll(EMPTY, [rec]) == Apply(EMPTY, rec);
  }

  lemma {:induction false} KeptNothing(order: seq<GrantId>)
    ensures Kept(order, map[]) == []
  {
    if order != [] {
      KeptNothing(order[1..]);
    }
  }

  // Recovery would return all of memory but one commit, one that had survived the pruning.
  ghost predicate ForgetsOne(file: bytes, kept: State, memory: State, gone: GrantId) {
    && gone in kept.consumed && !Corrupt(file)
    && Replayed(file).consumed == Forget(memory.consumed, gone)
    && Replayed(file).revoked == memory.revoked && Replayed(file).receipts == memory.receipts
  }

  // When some commit survived, recovery forgets exactly one of the survivors and nothing else.
  lemma SurvivorForgotten(s: State, id: GrantId, expiry: u64, now: u64, file: bytes)
    requires RewritesAndCommits(s, id, expiry, now) && LeftBy(s, id, expiry, now, file)
    requires Prune(s, now).consumed != map[]
    ensures exists gone: GrantId :: ForgetsOne(file, Prune(s, now), CommitState(s, id, expiry, now).1, gone)
  {
    hide ImageOf, ForgetsOne, WriteAt, Encode, Apply, CommitState, Prune, RewritesAndCommits;
    var kept := Prune(s, now);
    var image :| ImageOf(kept, image) && file == WriteAt(image, 0, Encode(Commit(id, expiry)));
    CommitsAfterPrune(s, id, expiry, now);
    var gone := OneForgotten(kept, id, expiry, image);
    assert ForgetsOne(file, kept, CommitState(s, id, expiry, now).1, gone);
  }

  lemma OneForgotten(kept: State, id: GrantId, expiry: u64, image: bytes) returns (gone: GrantId)
    requires ImageOf(kept, image) && kept.consumed != map[] && id !in kept.consumed
    ensures ForgetsOne(WriteAt(image, 0, Encode(Commit(id, expiry))), kept, Apply(kept, Commit(id, expiry)), gone)
  {
    hide ImageOf, Replayed, Corrupt, WriteAt, Encode;
    gone := FirstReplaced(kept, id, expiry, image);
    var left := kept.(consumed := Forget(kept.consumed, gone)[id := expiry]);
    ImageRecovers(left, WriteAt(image, 0, Encode(Commit(id, expiry))));
    assert left.consumed == Forget(kept.consumed[id := expiry], gone);
  }

  lemma HeadListed(m: map<GrantId, u64>, cs: seq<(GrantId, u64)>)
    requires Enumerates(m, cs) && m != map[]
    ensures cs != [] && cs[0].0 in m
  {
    var k :| k in m;
    assert (k, m[k]) in cs;
    assert cs[0] in cs;
  }

  // Written at the start of an image, a commit takes the place of the first commit there.
  lemma FirstReplaced(s: State, id: GrantId, expiry: u64, image: bytes) returns (gone: GrantId)
    requires ImageOf(s, image) && s.consumed != map[] && id !in s.consumed
    ensures gone in s.consumed
    ensures ImageOf(s.(consumed := Forget(s.consumed, gone)[id := expiry]),
                    WriteAt(image, 0, Encode(Commit(id, expiry))))
  {
    hide Image, WriteAt, Encode, Enumerates;
    var cs: seq<(GrantId, u64)>, rs: seq<(SigPubkey, u64)>, fs: seq<(GrantId, u64)> :|
      Lists(s, cs, rs, fs) && image == Image(cs, rs, fs);
    HeadListed(s.consumed, cs);
    gone := cs[0].0;
    var cs' := [(id, expiry)] + cs[1..];
    HeadReplaced(s.consumed, cs, id, expiry);
    HeadOverwritten(cs, rs, fs, id, expiry);
    assert Lists(s.(consumed := Forget(s.consumed, gone)[id := expiry]), cs', rs, fs);
  }

  lemma HeadOverwritten(cs: seq<(GrantId, u64)>, rs: seq<(SigPubkey, u64)>, fs: seq<(GrantId, u64)>,
                        id: GrantId, expiry: u64)
    requires cs != []
    ensures WriteAt(Image(cs, rs, fs), 0, Encode(Commit(id, expiry))) == Image([(id, expiry)] + cs[1..], rs, fs)
  {
    var first, rest := cs[0], Commits(cs[1..]) + Revokes(rs) + Receipts(fs);
    HeadImage(first, cs[1..], rs, fs);
    HeadImage((id, expiry), cs[1..], rs, fs);
    assert cs == [first] + cs[1..];
    CommitsAlike(first.0, first.1, id, expiry);
    hide Image, Encode, EncodeAll;
    Overwritten(Encode(Commit(first.0, first.1)), Encode(Commit(id, expiry)), EncodeAll(rest));
  }

  lemma HeadImage(first: (GrantId, u64), cs: seq<(GrantId, u64)>, rs: seq<(SigPubkey, u64)>, fs: seq<(GrantId, u64)>)
    ensures Image([first] + cs, rs, fs)
            == Encode(Commit(first.0, first.1)) + EncodeAll(Commits(cs) + Revokes(rs) + Receipts(fs))
  {
    hide Encode, EncodeAll;
    var rest := Commits(cs) + Revokes(rs) + Receipts(fs);
    assert Commits([first] + cs) == [Commit(first.0, first.1)] + Commits(cs);
    assert Commits([first] + cs) + Revokes(rs) + Receipts(fs) == [Commit(first.0, first.1)] + rest;
    FrontEncoded(Commit(first.0, first.1), rest);
  }

  lemma HeadReplaced(m: map<GrantId, u64>, cs: seq<(GrantId, u64)>, id: GrantId, expiry: u64)
    requires Enumerates(m, cs) && cs != [] && id !in m
    ensures Enumerates(Forget(m, cs[0].0)[id := expiry], [(id, expiry)] + cs[1..])
  {
    var rest := cs[1..];
    TailEnumerates(m, cs);
    ConsEnumerates(Forget(m, cs[0].0), rest, id, expiry);
  }

  lemma TailEnumerates(m: map<GrantId, u64>, cs: seq<(GrantId, u64)>)
    requires Enumerates(m, cs) && cs != []
    ensures Enumerates(Forget(m, cs[0].0), cs[1..])
  {
    var rest, m' := cs[1..], Forget(m, cs[0].0);
    forall p | p in rest ensures p.0 in m' && m'[p.0] == p.1 {
      var i :| 0 <= i < |rest| && rest[i] == p;
      assert cs[i + 1] in cs;
    }
    forall k | k in m'.Keys ensures (k, m'[k]) in rest {
      var i :| 0 <= i < |cs| && cs[i] == (k, m[k]);
      assert rest[i - 1] == cs[i];
    }
  }

  lemma ConsEnumerates(m: map<GrantId, u64>, cs: seq<(GrantId, u64)>, id: GrantId, expiry: u64)
    requires Enumerates(m, cs) && id !in m
    ensures Enumerates(m[id := expiry], [(id, expiry)] + cs)
  {
    var cs', m' := [(id, expiry)] + cs, m[id := expiry];
    forall i | 1 <= i < |cs'| ensures cs'[i].0 in m {
      assert cs'[i] == cs[i - 1] && cs[i - 1] in cs;
    }
    forall k | k in m'.Keys ensures (k, m'[k]) in cs' {
      if k == id {
        assert cs'[0] == (id, expiry);
      } else {
        var i :| 0 <= i < |cs| && cs[i] == (k, m[k]);
        assert cs'[i + 1] == cs[i];
      }
    }
  }

  lemma FrontEncoded(r: Record, rest: seq<Record>)
    ensures EncodeAll([r] + rest) == Encode(r) + EncodeAll(rest)
  {
    assert ([r] + rest)[1..] == rest;
  }

  lemma CommitsAlike(a: GrantId, x: u64, b: GrantId, y: u64)
    ensures |Encode(Commit(a, x))| == |Encode(Commit(b, y))| == REC_COMMIT_LEN
  {
  }

  lemma Overwritten(a: bytes, b: bytes, rest: bytes)
    requires |a| == |b|
    ensures WriteAt(a + rest, 0, b) == b + rest
  {
    assert (a + rest)[|a|..] == rest;
  }

  // ---------- a full ledger is reached ----------

  function IdOf(i: u16): (id: GrantId)
    ensures Wire.U16Of(id[14..]) == i
  {
    var id := seq(14, _ => 0 as byte) + Wire.U16Bytes(i);
    assert id[14..] == Wire.U16Bytes(i);
    Wire.U16RoundTrip(i);
    id
  }

  // The first n identifiers, the very first expiring at `soon` and the others at `late`.
  function Crowd(n: nat, soon: u64, late: u64): (m: map<GrantId, u64>)
    requires n <= MAX_LIVE
    ensures forall k <- m.Keys :: Wire.U16Of(k[14..]) < n
    ensures |m| == n
    ensures n > 1 ==> IdOf(1) in m && m[IdOf(1)] == late
    ensures n > 0 ==> IdOf(0) in m && m[IdOf(0)] == soon
    ensures forall k <- m.Keys :: m[k] == soon || m[k] == late
  {
    if n == 0 then map[]
    else
      MapAdds(Crowd(n - 1, soon, late), IdOf(n - 1), if n == 1 then soon else late);
      Crowd(n - 1, soon, late)[IdOf(n - 1) := if n == 1 then soon else late]
  }

  ghost function Fill(n: nat, soon: u64, late: u64): (ops: seq<Op>)
    requires n <= MAX_LIVE
    ensures |ops| == n
  {
    if n == 0 then []
    else Fill(n - 1, soon, late) + [DoCommit(IdOf(n - 1), if n == 1 then soon else late, 0)]
  }

  // Committing that many grants to an empty ledger fills it, without any pruning.
  lemma {:induction false} Filled(n: nat, soon: u64, late: u64)
    requires n <= MAX_LIVE
    ensures Appending(Fill(n, soon, late))
    ensures var s := After(Fill(n, soon, late)).st;
            s.consumed == Crowd(n, soon, late) && s.published == {} && s.revoked == map[] && s.receipts == map[]
  {
    hide After;
    var ops := Fill(n, soon, late);
    if n == 0 {
      StartsEmpty();
    } else {
      Filled(n - 1, soon, late);
      assert ops[..|ops| - 1] == Fill(n - 1, soon, late);
      AfterLast(ops);
    }
  }

  // Committing one grant more, when the first has expired and the second has not, rewrites the file.
  lemma FullRewrites(s: State, soon: u64, late: u64, expiry: u64, now: u64)
    requires s.consumed == Crowd(MAX_LIVE, soon, late) && s.published == {} && soon <= now < late
    ensures RewritesAndCommits(s, IdOf(1024), expiry, now) && IdOf(1) in Prune(s, now).consumed
  {
    hide Crowd;
    var id := IdOf(1024);
    assert id !in s.consumed;
    assert IdOf(0) in s.consumed.Keys && s.consumed[IdOf(0)] <= now;
    PruneShrinks(s, now);
  }

  // A concrete run: 1024 grants committed at time 0, the first of which expires at 5, and one more committed
  // at time 10. It rewrites the file, and the next recovery forgets one of the 1023 unexpired grants.
  lemma CommitOverwritesSurvivor(file: bytes)
    ensures var ops, id := Fill(MAX_LIVE, 5, 100), IdOf(1024);
            var s := After(ops).st;
            && Appending(ops) && RewritesAndCommits(s, id, 100, 10)
            && (LeftBy(s, id, 100, 10, file) ==>
                  exists gone: GrantId :: ForgetsOne(file, Prune(s, 10), CommitState(s, id, 100, 10).1, gone))
  {
    hide After, Appending, Crowd, Fill, LeftBy, Prune, CommitState, ForgetsOne, RewritesAndCommits;
    Filled(MAX_LIVE, 5, 100);
    var s := After(Fill(MAX_LIVE, 5, 100)).st;
    FullRewrites(s, 5, 100, 100, 10);
    if LeftBy(s, IdOf(1024), 100, 10, file) {
      SurvivorForgotten(s, IdOf(1024), 100, 10, file);
    }
  }

  // Pruning drops at least one commit when one has expired.
  lemma PruneShrinks(s: State, now: u64)
    requires Expired(s, now)
    ensures |Prune(s, now).consumed| < |s.consumed|
  {
    var id :| id in s.consumed.Keys && s.consumed[id] <= now;
    SubsetCount(Prune(s, now).consumed.Keys, s.consumed.Keys - {id});
    assert |Prune(s, now).consumed| == |Prune(s, now).consumed.Keys| && |s.consumed| == |s.consumed.Keys|;
  }
}
