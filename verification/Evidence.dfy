/** Evidence: the receiver recomputes a claim's confidence from the spans it cites. */
module Evidence {
  import opened Base

  const LEN_SPAN_REF := 16
  const DOMAIN_SPAN: byte := 0x03

  datatype EvidenceClass = DirectObservation | ExpertTestimony | Documentation | Inference

  function ClassOf(method': byte): EvidenceClass {
    if 1 <= method' <= 4 then DirectObservation
    else if method' == 5 || method' == 6 then Documentation
    else if method' == 7 then ExpertTestimony
    else Inference
  }

  function Ceiling(class': EvidenceClass): byte {
    match class'
    case DirectObservation => 242
    case ExpertTestimony => 216
    case Documentation => 191
    case Inference => 165
  }

  datatype Span = Span(spanId: bytes, tbs: bytes, sig: bytes, executor: bytes, resourceId: bytes,
                       origin: bytes, volatility: byte, methodId: byte)

  datatype Claim = Claim(spanIds: bytes, spanCount: nat, subject: bytes, confidence: byte)

  datatype Origin = Effect | Absent | NonEffect

  // Facts that depend on state outside: signatures, roles, the origin's envelope, supersession.
  datatype Hooks = Hooks(
    verify: (byte, bytes, bytes, bytes) -> bool, isExecutor: bytes -> bool,
    origin: bytes -> Origin, isSuperseded: (bytes, bytes, bytes) -> bool)

  datatype Record = Record(cited: nat, inlineSpans: nat, supportable: nat, subjectMatched: nat,
                           superseded: nat, unresolved: nat, nonEffect: nat)

  datatype ClaimState =
    | Supported(effective: byte, pendingStronger: bool, record: Record)
    | Unresolved(record: Record)
    | Unsupported(record: Record)

  // ---------- one citation ----------

  datatype Finding =
    | NotInline | NotSupportable | OtherSubject | Superseded | NotAnEffect | Pending | Supports(ceiling: byte)

  function FirstSpan(spans: seq<Span>, id: bytes): (r: Option<Span>)
    ensures r.Some? ==> r.value in spans && r.value.spanId == id
    ensures r.None? <==> forall s <- spans :: s.spanId != id
  {
    if spans == [] then None
    else if spans[0].spanId == id then Some(spans[0])
    else FirstSpan(spans[1..], id)
  }

  function Judge(id: bytes, subject: bytes, spans: seq<Span>, hooks: Hooks, envelope: bytes): Finding {
    match FirstSpan(spans, id)
    case None => NotInline
    case Some(s) =>
      if !hooks.verify(DOMAIN_SPAN, s.tbs, s.sig, s.executor) || !hooks.isExecutor(s.executor) then NotSupportable
      else if s.resourceId != subject then OtherSubject
      else match hooks.origin(s.origin)
        case Absent => Pending
        case NonEffect => NotAnEffect
        case Effect =>
          if s.volatility != 2 && hooks.isSuperseded(s.resourceId, s.origin, envelope) then Superseded
          else Supports(Ceiling(ClassOf(s.methodId)))
  }

  // ---------- many citations ----------

  // What the citations seen so far amount to.
  datatype Tally = Tally(record: Record, strongest: byte, pending: bool)

  function Start(): Tally {
    Tally(Record(0, 0, 0, 0, 0, 0, 0), 0, false)
  }

  function One(b: bool): nat {
    if b then 1 else 0
  }

  function Weigh(f: Finding): Tally {
    var supportable := !f.NotInline? && !f.NotSupportable?;
    Tally(Record(1, One(!f.NotInline?), One(supportable), One(supportable && !f.OtherSubject?),
                 One(f.Superseded?), One(f.Pending?), One(f.NotAnEffect?)),
          if f.Supports? then f.ceiling else 0, f.Pending?)
  }

  function Join(a: Tally, b: Tally): Tally {
    var r, s := a.record, b.record;
    Tally(Record(r.cited + s.cited, r.inlineSpans + s.inlineSpans, r.supportable + s.supportable,
                 r.subjectMatched + s.subjectMatched, r.superseded + s.superseded,
                 r.unresolved + s.unresolved, r.nonEffect + s.nonEffect),
          if a.strongest >= b.strongest then a.strongest else b.strongest, a.pending || b.pending)
  }

  function Weight(ids: seq<bytes>, judge: bytes -> Finding): Tally {
    if ids == [] then Start() else Join(Weight(ids[..|ids| - 1], judge), Weigh(judge(ids[|ids| - 1])))
  }

  lemma JoinLaws(a: Tally, b: Tally, c: Tally)
    ensures Join(Join(a, b), c) == Join(a, Join(b, c))
    ensures Join(a, b) == Join(b, a)
    ensures Join(a, Start()) == a
  {
  }

  lemma {:induction false} WeightSplit(a: seq<bytes>, b: seq<bytes>, judge: bytes -> Finding)
    ensures Weight(a + b, judge) == Join(Weight(a, judge), Weight(b, judge))
  {
    hide Join, Weigh;
    if b == [] {
      assert a + b == a;
      JoinLaws(Weight(a, judge), Start(), Start());
    } else {
      var init, w := b[..|b| - 1], Weigh(judge(b[|b| - 1]));
      WeightSplit(a, init, judge);
      assert (a + b)[..|a + b| - 1] == a + init;
      JoinLaws(Weight(a, judge), Weight(init, judge), w);
    }
  }

  // Taking one element out of the middle.
  lemma WeightAround(before: seq<bytes>, x: bytes, after: seq<bytes>, judge: bytes -> Finding)
    ensures Weight(before + ([x] + after), judge) == Weight((before + after) + [x], judge)
  {
    hide Join, Weigh;
    var p, q, r := Weight(before, judge), Weight([x], judge), Weight(after, judge);
    WeightSplit(before, [x] + after, judge);
    WeightSplit([x], after, judge);
    WeightSplit(before + after, [x], judge);
    WeightSplit(before, after, judge);
    JoinLaws(p, r, q);
    JoinLaws(q, r, q);
  }

  // The order of the citations does not matter, to the verdict or to any of the counts.
  lemma {:induction false} WeightPermuted(a: seq<bytes>, b: seq<bytes>, judge: bytes -> Finding)
    requires multiset(a) == multiset(b)
    ensures Weight(a, judge) == Weight(b, judge)
    decreases |a|
  {
    hide Join, Weigh, Weight;
    if a == [] {
      assert |multiset(b)| == 0;
    } else {
      var init, x := a[..|a| - 1], a[|a| - 1];
      assert a == init + [x];
      assert x in multiset(b);
      var j :| 0 <= j < |b| && b[j] == x;
      var rest := b[..j] + b[j + 1..];
      assert b == b[..j] + ([x] + b[j + 1..]);
      RestPermuted(init, b, x, j);
      WeightPermuted(init, rest, judge);
      WeightAround(b[..j], x, b[j + 1..], judge);
      WeightSplit(init, [x], judge);
      WeightSplit(rest, [x], judge);
    }
  }

  lemma RestPermuted(init: seq<bytes>, b: seq<bytes>, x: bytes, j: nat)
    requires j < |b| && b[j] == x && multiset(init + [x]) == multiset(b)
    ensures multiset(init) == multiset(b[..j] + b[j + 1..])
  {
    assert b == b[..j] + [x] + b[j + 1..];
    var rest := multiset(b[..j] + b[j + 1..]);
    assert multiset(b) == rest + multiset{x};
    assert multiset(init + [x]) == multiset(init) + multiset{x};
    assert multiset(init) == (multiset(init) + multiset{x}) - multiset{x};
    assert rest == (rest + multiset{x}) - multiset{x};
  }

  // ---------- a claim ----------

  // The references that lie whole within the packed identifiers.
  function Examined(c: Claim): (n: nat)
    ensures n <= c.spanCount && n * LEN_SPAN_REF <= |c.spanIds|
    ensures n < c.spanCount ==> (n + 1) * LEN_SPAN_REF > |c.spanIds|
  {
    if c.spanCount * LEN_SPAN_REF <= |c.spanIds| then c.spanCount else |c.spanIds| / LEN_SPAN_REF
  }

  function RefAt(c: Claim, i: nat): bytes
    requires (i + 1) * LEN_SPAN_REF <= |c.spanIds|
  {
    c.spanIds[i * LEN_SPAN_REF..(i + 1) * LEN_SPAN_REF]
  }

  function Refs(c: Claim): (r: seq<bytes>)
    ensures |r| == Examined(c)
    ensures forall i :: 0 <= i < Examined(c) ==> r[i] == RefAt(c, i)
  {
    seq(Examined(c), i requires 0 <= i < Examined(c) => RefAt(c, i))
  }

  function JudgeOf(c: Claim, spans: seq<Span>, hooks: Hooks, envelope: bytes): bytes -> Finding {
    (id: bytes) => Judge(id, c.subject, spans, hooks, envelope)
  }

  function Min(a: byte, b: byte): byte {
    if a <= b then a else b
  }

  function Verdict(c: Claim, t: Tally): ClaimState {
    if t.strongest > 0 then Supported(Min(c.confidence, t.strongest), t.pending, t.record)
    else if t.pending then Unresolved(t.record)
    else Unsupported(t.record)
  }

  // One reference beyond the end is counted as cited before the walk stops.
  function Resolve(c: Claim, spans: seq<Span>, hooks: Hooks, envelope: bytes): ClaimState {
    var t := Weight(Refs(c), JudgeOf(c, spans, hooks, envelope));
    var cut := One(Examined(c) < c.spanCount);
    Verdict(c, t.(record := t.record.(cited := t.record.cited + cut)))
  }

  // Some cited, inline span supports the claim up to this ceiling.
  ghost predicate Backed(c: Claim, spans: seq<Span>, hooks: Hooks, envelope: bytes, ceiling: byte) {
    exists id <- Refs(c) :: Judge(id, c.subject, spans, hooks, envelope) == Supports(ceiling)
  }

  ghost predicate Awaited(c: Claim, spans: seq<Span>, hooks: Hooks, envelope: bytes) {
    exists id <- Refs(c) :: Judge(id, c.subject, spans, hooks, envelope) == Pending
  }

  lemma {:induction false} WeightIs(ids: seq<bytes>, judge: bytes -> Finding)
    requires forall id <- ids :: judge(id).Supports? ==> judge(id).ceiling > 0
    ensures var t := Weight(ids, judge);
            && (t.pending <==> exists id <- ids :: judge(id) == Pending)
            && (t.strongest > 0 <==> exists id <- ids :: judge(id).Supports?)
            && (t.strongest > 0 ==> exists id <- ids :: judge(id) == Supports(t.strongest))
            && (forall id <- ids :: judge(id).Supports? ==> judge(id).ceiling <= t.strongest)
            && t.record.cited == |ids|
  {
    if ids != [] {
      var init, x := ids[..|ids| - 1], ids[|ids| - 1];
      WeightIs(init, judge);
      assert ids == init + [x];
    }
  }

  // The first inline span with this identifier.
  ghost predicate Inline(spans: seq<Span>, id: bytes, s: Span) {
    exists i :: 0 <= i < |spans| && spans[i] == s && s.spanId == id && forall k :: 0 <= k < i ==> spans[k].spanId != id
  }

  lemma {:induction false} FirstSpanAt(spans: seq<Span>, id: bytes) returns (i: nat)
    requires FirstSpan(spans, id).Some?
    ensures i < |spans| && spans[i] == FirstSpan(spans, id).value
    ensures forall k :: 0 <= k < i ==> spans[k].spanId != id
  {
    if spans[0].spanId == id {
      i := 0;
    } else {
      var j := FirstSpanAt(spans[1..], id);
      i := j + 1;
      forall k | 0 <= k < i ensures spans[k].spanId != id {
        assert k > 0 ==> spans[k] == spans[1..][k - 1];
      }
    }
  }

  lemma FirstSpanIff(spans: seq<Span>, id: bytes, s: Span)
    ensures FirstSpan(spans, id) == Some(s) <==> Inline(spans, id, s)
  {
    hide FirstSpan;
    if FirstSpan(spans, id).Some? {
      var i := FirstSpanAt(spans, id);
      assert spans[i].spanId == id;
    }
  }

  // The ceiling of a method: what was observed directly counts most, then testimony, documents, inference.
  function CeilingOf(methodId: byte): byte {
    if methodId in {1, 2, 3, 4} then 242 else if methodId == 7 then 216 else if methodId in {5, 6} then 191 else 165
  }

  // A citation supports up to a ceiling exactly when its span is inline, signed by an executor, about the subject, its
  // origin is an effect, and it is not superseded or, being permanent, need not be.
  lemma SupportsIff(id: bytes, subject: bytes, spans: seq<Span>, hooks: Hooks, envelope: bytes, ceiling: byte)
    ensures Judge(id, subject, spans, hooks, envelope) == Supports(ceiling) <==>
              exists s: Span :: Inline(spans, id, s)
                && hooks.verify(0x03, s.tbs, s.sig, s.executor) && hooks.isExecutor(s.executor)
                && s.resourceId == subject && hooks.origin(s.origin) == Effect
                && (s.volatility == 2 || !hooks.isSuperseded(s.resourceId, s.origin, envelope))
                && ceiling == CeilingOf(s.methodId)
  {
    OneInline(spans, id);
    hide Inline, FirstSpan;
  }

  // It awaits its origin exactly when it qualifies as far as that.
  lemma PendingIff(id: bytes, subject: bytes, spans: seq<Span>, hooks: Hooks, envelope: bytes)
    ensures Judge(id, subject, spans, hooks, envelope) == Pending <==>
              exists s: Span :: Inline(spans, id, s)
                && hooks.verify(0x03, s.tbs, s.sig, s.executor) && hooks.isExecutor(s.executor)
                && s.resourceId == subject && hooks.origin(s.origin) == Absent
  {
    OneInline(spans, id);
    hide Inline, FirstSpan;
  }

  lemma OneInline(spans: seq<Span>, id: bytes)
    ensures forall s: Span :: Inline(spans, id, s) <==> FirstSpan(spans, id) == Some(s)
  {
    forall s: Span ensures Inline(spans, id, s) <==> FirstSpan(spans, id) == Some(s) {
      FirstSpanIff(spans, id, s);
    }
  }

  // The positions of the references found so.
  ghost function Those(ids: seq<bytes>, judge: bytes -> Finding, p: Finding -> bool): set<nat> {
    set i: nat | i < |ids| && p(judge(ids[i]))
  }

  lemma OneMore(ids: seq<bytes>, judge: bytes -> Finding, p: Finding -> bool)
    requires ids != []
    ensures |Those(ids, judge, p)| == |Those(ids[..|ids| - 1], judge, p)| + One(p(judge(ids[|ids| - 1])))
  {
    var last := |ids| - 1;
    assert Those(ids, judge, p) == Those(ids[..last], judge, p) + if p(judge(ids[last])) then {last} else {};
  }

  function IsInline(): Finding -> bool {
    (f: Finding) => !f.NotInline?
  }

  function IsSupportable(): Finding -> bool {
    (f: Finding) => !f.NotInline? && !f.NotSupportable?
  }

  function IsOnSubject(): Finding -> bool {
    (f: Finding) => !f.NotInline? && !f.NotSupportable? && !f.OtherSubject?
  }

  function IsSuperseded(): Finding -> bool {
    (f: Finding) => f.Superseded?
  }

  function IsPending(): Finding -> bool {
    (f: Finding) => f.Pending?
  }

  function IsNonEffect(): Finding -> bool {
    (f: Finding) => f.NotAnEffect?
  }

  // The record counts the references, and how far each of them got.
  lemma {:induction false} RecordCounts(ids: seq<bytes>, judge: bytes -> Finding)
    ensures var r := Weight(ids, judge).record;
            && r.cited == |ids|
            && r.inlineSpans == |Those(ids, judge, IsInline())|
            && r.supportable == |Those(ids, judge, IsSupportable())|
            && r.subjectMatched == |Those(ids, judge, IsOnSubject())|
            && r.superseded == |Those(ids, judge, IsSuperseded())|
            && r.unresolved == |Those(ids, judge, IsPending())|
            && r.nonEffect == |Those(ids, judge, IsNonEffect())|
  {
    if ids != [] {
      RecordCounts(ids[..|ids| - 1], judge);
      OneMore(ids, judge, IsInline());
      OneMore(ids, judge, IsSupportable());
      OneMore(ids, judge, IsOnSubject());
      OneMore(ids, judge, IsSuperseded());
      OneMore(ids, judge, IsPending());
      OneMore(ids, judge, IsNonEffect());
      hide Those;
    }
  }

  // A claim is supported exactly when some span qualifies, and then at the smaller of what it states and the
  // highest ceiling among those that do; otherwise it is unresolved exactly when a qualifying span's origin is
  // not here yet.
  lemma ConfidenceIsRecomputed(c: Claim, spans: seq<Span>, hooks: Hooks, envelope: bytes)
    ensures var state := Resolve(c, spans, hooks, envelope);
            && (state.Supported? <==> exists k :: Backed(c, spans, hooks, envelope, k))
            && (state.Supported? ==>
                  && (exists k :: Backed(c, spans, hooks, envelope, k) && state.effective == Min(c.confidence, k))
                  && (forall k :: Backed(c, spans, hooks, envelope, k) ==> Min(c.confidence, k) <= state.effective)
                  && (state.pendingStronger <==> Awaited(c, spans, hooks, envelope)))
            && (state.Unresolved? <==>
                  (forall k :: !Backed(c, spans, hooks, envelope, k)) && Awaited(c, spans, hooks, envelope))
  {
    hide Weight, FirstSpan, Examined;
    var judge := JudgeOf(c, spans, hooks, envelope);
    WeightIs(Refs(c), judge);
    var t := Weight(Refs(c), judge);
    if t.strongest > 0 {
      assert Backed(c, spans, hooks, envelope, t.strongest);
    }
    hide Judge, Refs;
  }

  // Citing the same spans in another order gives the same state, counts included.
  lemma OrderOfCitations(c: Claim, d: Claim, spans: seq<Span>, hooks: Hooks, envelope: bytes)
    requires c.spanCount == d.spanCount && |c.spanIds| == |d.spanIds|
    requires c.subject == d.subject && c.confidence == d.confidence
    requires multiset(Refs(c)) == multiset(Refs(d))
    ensures Resolve(c, spans, hooks, envelope) == Resolve(d, spans, hooks, envelope)
  {
    WeightPermuted(Refs(c), Refs(d), JudgeOf(c, spans, hooks, envelope));
    assert JudgeOf(c, spans, hooks, envelope) == JudgeOf(d, spans, hooks, envelope);
  }

  method FindSpan(spans: seq<Span>, id: bytes) returns (r: Option<Span>)
    ensures r == FirstSpan(spans, id)
  {
    for i := 0 to |spans|
      invariant FirstSpan(spans, id) == FirstSpan(spans[i..], id)
    {
      if spans[i].spanId == id {
        return Some(spans[i]);
      }
      assert spans[i..][1..] == spans[i + 1..];
    }
    return None;
  }

  lemma NoRefs(c: Claim, judge: bytes -> Finding)
    ensures Weight(Refs(c)[..0], judge) == Start()
  {
  }

  lemma NextRef(c: Claim, i: nat, judge: bytes -> Finding)
    requires i < Examined(c)
    ensures (i + 1) * LEN_SPAN_REF <= |c.spanIds|
    ensures Weight(Refs(c)[..i + 1], judge) == Join(Weight(Refs(c)[..i], judge), Weigh(judge(RefAt(c, i))))
  {
    assert Refs(c)[..i + 1][..i] == Refs(c)[..i];
  }

  method ResolveClaim(c: Claim, spans: seq<Span>, hooks: Hooks, envelope: bytes) returns (state: ClaimState)
    ensures state == Resolve(c, spans, hooks, envelope)
  {
    hide Weight, Refs;
    ghost var judge := JudgeOf(c, spans, hooks, envelope);
    NoRefs(c, judge);
    var rec := Record(0, 0, 0, 0, 0, 0, 0);
    var strongest: byte := 0;
    var hasUnresolved := false;
    var i := 0;
    while i < c.spanCount
      invariant i <= Examined(c)
      invariant Tally(rec, strongest, hasUnresolved) == Weight(Refs(c)[..i], judge)
    {
      rec := rec.(cited := rec.cited + 1);
      if (i + 1) * LEN_SPAN_REF > |c.spanIds| {
        break;
      }
      var id := c.spanIds[i * LEN_SPAN_REF..(i + 1) * LEN_SPAN_REF];
      NextRef(c, i, judge);
      i := i + 1;
      var found := FindSpan(spans, id);
      if found.None? {
        continue;
      }
      var span := found.value;
      rec := rec.(inlineSpans := rec.inlineSpans + 1);
      if !hooks.verify(DOMAIN_SPAN, span.tbs, span.sig, span.executor) || !hooks.isExecutor(span.executor) {
        continue;
      }
      rec := rec.(supportable := rec.supportable + 1);
      if span.resourceId != c.subject {
        continue;
      }
      rec := rec.(subjectMatched := rec.subjectMatched + 1);
      match hooks.origin(span.origin)
      case Effect =>
        if span.volatility != 2 && hooks.isSuperseded(span.resourceId, span.origin, envelope) {
          rec := rec.(superseded := rec.superseded + 1);
          continue;
        }
        var ceiling := Ceiling(ClassOf(span.methodId));
        if ceiling > strongest {
          strongest := ceiling;
        }
      case Absent =>
        rec := rec.(unresolved := rec.unresolved + 1);
        hasUnresolved := true;
      case NonEffect =>
        rec := rec.(nonEffect := rec.nonEffect + 1);
    }
    assert Refs(c)[..Examined(c)] == Refs(c);
    if strongest > 0 {
      state := Supported(Min(c.confidence, strongest), hasUnresolved, rec);
    } else if hasUnresolved {
      state := Unresolved(rec);
    } else {
      state := Unsupported(rec);
    }
  }
}
