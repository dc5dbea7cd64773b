/** The resolver: the operator declares canonical resources and aliases; a proposal resolves to the
    one declared resource it names, and the intent lock is taken on that. */
module Resolver {
  import opened Base
  import opened Collections
  import opened Canonical
  import opened ResourceSet
  import Intents
  import Wire

  datatype ResolveError =
    | MalformedCanonical | SetFull | AliasPoolFull | DuplicateEntry
    | UnknownResource | AmbiguousResource | ForeignExecutor | BufferTooSmall
    | Intent(error: Intents.IntentError)

  // The resolution: unknown when nothing is named, ambiguous when two are, foreign when the one
  // resource named belongs to another executor.
  ghost predicate Resolution(d: Declared, proposed: bytes, r: Result<bytes, ResolveError>) {
    match r
    case Ok(c) => exists i: nat :: d.NamesOnly(i, proposed) && c == d.entries[i] && d.Own(c)
    case Err(ForeignExecutor) => exists i: nat :: d.NamesOnly(i, proposed) && !d.Own(d.entries[i])
    case Err(AmbiguousResource) =>
      exists i: nat, j: nat :: i < j < |d.entries| && d.Names(i, proposed) && d.Names(j, proposed)
    case Err(UnknownResource) => forall i: nat :: i < |d.entries| ==> !d.Names(i, proposed)
    case Err(_) => false
  }

  lemma ResolutionUnique(d: Declared, proposed: bytes, r: Result<bytes, ResolveError>, s: Result<bytes, ResolveError>)
    requires Resolution(d, proposed, r) && Resolution(d, proposed, s)
    ensures r == s
  {
  }

  // ---------- the intent table under resolved admissions ----------

  datatype Op =
    | Propose(intentId: bytes, proposed: bytes, resolution: Result<bytes, ResolveError>, now: u64)
    | Begin(idx: nat)
    | Refuse(intentId: bytes)
    | Expire(now: u64)

  ghost predicate Legal(d: Declared, op: Op) {
    op.Propose? ==> Resolution(d, op.proposed, op.resolution)
  }

  function ResolveAndAdmit(es: seq<Intents.Entry>, op: Op): (Result<(), ResolveError>, seq<Intents.Entry>)
    requires op.Propose?
  {
    match op.resolution
    case Err(e) => (Err(e), es)
    case Ok(c) =>
      if |c| > Intents.MAX_RESOURCE then (Err(MalformedCanonical), es) else
      var (r, out) := Intents.Admit(es, op.intentId, c, op.now);
      (if r.Ok? then Ok(()) else Err(Intent(r.error)), out)
  }

  function Step(es: seq<Intents.Entry>, op: Op): seq<Intents.Entry> {
    match op
    case Propose(_, _, _, _) => ResolveAndAdmit(es, op).1
    case Begin(idx) => Intents.BeginExecuting(es, idx).1
    case Refuse(id) => Intents.ApplyRefusal(es, id).1
    case Expire(now) => Intents.ExpireTimeouts(es, now).1
  }

  function Run(es: seq<Intents.Entry>, ops: seq<Op>): seq<Intents.Entry>
    decreases ops
  {
    if ops == [] then es else Run(Step(es, ops[0]), ops[1..])
  }

  // The locks are consistent and every lock is on a declared resource of this executor.
  ghost predicate TableInv(d: Declared, es: seq<Intents.Entry>) {
    && Intents.Locks(es)
    && forall e <- es :: e.resource in d.entries && d.Own(e.resource)
  }

  lemma StepKeepsInv(d: Declared, es: seq<Intents.Entry>, op: Op)
    requires d.Valid() && TableInv(d, es) && Legal(d, op)
    ensures TableInv(d, Step(es, op))
  {
    match op
    case Propose(id, proposed, resolution, now) =>
      if resolution.Ok? {
        Intents.AdmitKeepsLocks(es, id, resolution.value, now);
      }
    case Begin(idx) =>
      Intents.BeginKeepsLocks(es, idx);
    case Refuse(id) =>
      Intents.RefusalKeepsLocks(es, id);
      Intents.RefusalReleases(es, id);
    case Expire(now) =>
      Intents.ExpiryKeepsLocks(es, now);
      Intents.SweepRemovesTimedOut(es, now);
  }

  // Over every run from the empty table the locks are exclusive and on declared resources.
  lemma {:induction false} RunKeepsInv(d: Declared, es: seq<Intents.Entry>, ops: seq<Op>)
    requires d.Valid() && TableInv(d, es)
    requires forall op <- ops :: Legal(d, op)
    ensures TableInv(d, Run(es, ops))
    decreases ops
  {
    if ops != [] {
      StepKeepsInv(d, es, ops[0]);
      RunKeepsInv(d, Step(es, ops[0]), ops[1..]);
    }
  }

  // One lock per declared resource bounds the table, so it never fills up.
  lemma TableBounded(d: Declared, es: seq<Intents.Entry>)
    requires d.Valid() && TableInv(d, es)
    ensures |es| <= MAX_RESOURCES
  {
    var held := seq(|es|, i requires 0 <= i < |es| => es[i].resource);
    forall i, j | 0 <= i < j < |held| ensures held[i] != held[j] {
      assert Intents.Apart(es[i], es[j]);
    }
    var pool := set e <- d.entries;
    DistinctCount(d.entries);
    DistinctWithin(held, pool);
  }

  lemma NeverTableFull(d: Declared, es: seq<Intents.Entry>, op: Op)
    requires d.Valid() && TableInv(d, es) && Legal(d, op) && op.Propose?
    ensures ResolveAndAdmit(es, op).0 != Err(Intent(Intents.TableFull))
    ensures op.resolution.Ok? ==> ResolveAndAdmit(es, op).0 != Err(MalformedCanonical)
  {
    TableBounded(d, es);
    if op.resolution.Ok? {
      CanonicalLength(op.resolution.value);
    }
  }

  ghost predicate Held(es: seq<Intents.Entry>, resource: bytes) {
    exists e <- es :: e.Live() && e.resource == resource
  }

  // Aliases cannot split a lock: while a declared resource is held, a proposal under any of its names, its own
  // or an alias, is refused and changes nothing.
  lemma AliasesShareTheLock(d: Declared, es: seq<Intents.Entry>, op: Op, i: nat)
    requires op.Propose? && Legal(d, op) && i < |d.entries|
    requires d.Names(i, op.proposed) && Held(es, d.entries[i])
    ensures ResolveAndAdmit(es, op).0.Err? && Step(es, op) == es
  {
  }

  // A proposal is admitted exactly when its name is that of one declared resource, the executor's own and not
  // held, and its id is not pending.
  lemma ProposalAdmittedIff(d: Declared, es: seq<Intents.Entry>, op: Op)
    requires d.Valid() && TableInv(d, es) && op.Propose? && Legal(d, op)
    ensures ResolveAndAdmit(es, op).0.Ok? <==>
              && (exists i: nat :: d.NamesOnly(i, op.proposed) && d.Own(d.entries[i]) && !Held(es, d.entries[i]))
              && (forall e <- es :: !(e.status == Intents.Pending && e.intentId == op.intentId))
    ensures ResolveAndAdmit(es, op).0.Ok? ==>
              exists i: nat :: d.NamesOnly(i, op.proposed)
                && Step(es, op) == es + [Intents.Entry(op.intentId, d.entries[i], Intents.Pending, op.now)]
  {
    assert forall e: Intents.Entry ::
             e.PendingAs(op.intentId) <==> e.status == Intents.Pending && e.intentId == op.intentId;
    NeverTableFull(d, es, op);
    if op.resolution.Ok? {
      var k: nat :| d.NamesOnly(k, op.proposed) && op.resolution.value == d.entries[k] && d.Own(op.resolution.value);
      assert forall i: nat :: d.NamesOnly(i, op.proposed) ==> i == k;
    } else {
      forall i: nat | d.NamesOnly(i, op.proposed) ensures !d.Own(d.entries[i]) {
        if d.Own(d.entries[i]) {
          ResolutionUnique(d, op.proposed, op.resolution, Ok(d.entries[i]));
        }
      }
    }
  }

  // An executing intent keeps its entry, and with it the lock, for good.
  lemma {:induction false} ExecutingStays(d: Declared, es: seq<Intents.Entry>, ops: seq<Op>, e: Intents.Entry)
    requires d.Valid() && TableInv(d, es) && e in es && e.status == Intents.Executing
    requires forall op <- ops :: Legal(d, op)
    ensures e in Run(es, ops)
    decreases ops
  {
    if ops != [] {
      StepKeepsInv(d, es, ops[0]);
      ExecutingStep(es, ops[0], e);
      ExecutingStays(d, Step(es, ops[0]), ops[1..], e);
    }
  }

  // Once an intent executes on a resource, no later proposal under any name of the resource is ever admitted.
  lemma ExecutingExcludes(d: Declared, es: seq<Intents.Entry>, ops: seq<Op>, k: nat, e: Intents.Entry, i: nat)
    requires d.Valid() && TableInv(d, es) && forall op <- ops :: Legal(d, op)
    requires e in es && e.status == Intents.Executing && i < |d.entries| && e.resource == d.entries[i]
    requires k < |ops| && ops[k].Propose? && d.Names(i, ops[k].proposed)
    ensures var before := Run(es, ops[..k]);
            ResolveAndAdmit(before, ops[k]).0.Err? && Step(before, ops[k]) == before
  {
    ExecutingStays(d, es, ops[..k], e);
    AliasesShareTheLock(d, Run(es, ops[..k]), ops[k], i);
  }

  lemma ExecutingStep(es: seq<Intents.Entry>, op: Op, e: Intents.Entry)
    requires Intents.Locks(es) && e in es && e.status == Intents.Executing
    ensures e in Step(es, op)
  {
    match op
    case Propose(_, _, _, _) =>
    case Begin(idx) =>
      var k :| 0 <= k < |es| && es[k] == e;
      var out := Intents.BeginExecuting(es, idx).1;
      assert out[k] == e;
    case Refuse(id) =>
      Intents.RefusalReleases(es, id);
    case Expire(now) =>
      Intents.SweepRemovesTimedOut(es, now);
  }

  // ---------- the resolver object ----------

  class Resolver {
    const ownFp: bytes
    const entries: array<bytes>
    var entryCount: nat
    const aliases: array<Alias>
    var aliasCount: nat

    ghost predicate Valid()
      reads this, entries, aliases
    {
      && entries.Length == MAX_RESOURCES && aliases.Length == MAX_ALIASES
      && entryCount <= MAX_RESOURCES && aliasCount <= MAX_ALIASES
      && Set().Valid()
    }

    ghost function Set(): Declared
      requires entryCount <= entries.Length && aliasCount <= aliases.Length
      reads this, entries, aliases
    {
      Declared(ownFp, entries[..entryCount], aliases[..aliasCount])
    }

    constructor (fp: bytes)
      requires |fp| == FP_HEX_LEN
      ensures Valid() && Set() == Declared(fp, [], [])
      ensures fresh(entries) && fresh(aliases)
    {
      ownFp := fp;
      entries := new bytes[MAX_RESOURCES](_ => []);
      aliases := new Alias[MAX_ALIASES](_ => Alias([], 0));
      entryCount, aliasCount := 0, 0;
    }

    method FindEntry(canonical: bytes) returns (r: Option<nat>)
      requires Valid()
      ensures r.None? ==> canonical !in Set().entries
      ensures r.Some? ==> r.value < entryCount && Set().entries[r.value] == canonical
    {
      for i := 0 to entryCount
        invariant canonical !in entries[..i]
      {
        if entries[i] == canonical {
          return Some(i);
        }
      }
      return None;
    }

    method Add(canonical: bytes) returns (r: Result<(), ResolveError>)
      requires Valid()
      modifies `entryCount, entries
      ensures Valid()
      ensures r == if !IsCanonical(canonical) then Err(MalformedCanonical)
                   else if |old(Set()).entries| == MAX_RESOURCES then Err(SetFull)
                   else if canonical in old(Set()).entries then Err(DuplicateEntry)
                   else Ok(())
      ensures Set() == if r.Ok? then old(Set()).(entries := old(Set()).entries + [canonical]) else old(Set())
    {
      var valid := ValidateCanonical(canonical);
      if !valid {
        return Err(MalformedCanonical);
      }
      CanonicalLength(canonical);
      if |canonical| > ID_MAX {
        return Err(MalformedCanonical);
      }
      if entryCount == MAX_RESOURCES {
        return Err(SetFull);
      }
      var found := FindEntry(canonical);
      if found.Some? {
        return Err(DuplicateEntry);
      }
      ghost var before := entries[..entryCount];
      entries[entryCount] := canonical;
      entryCount := entryCount + 1;
      assert entries[..entryCount] == before + [canonical];
      return Ok(());
    }

    method AddAlias(canonical: bytes, name: bytes) returns (r: Result<(), ResolveError>)
      requires Valid()
      modifies `aliasCount, aliases
      ensures Valid()
      ensures r == if name == [] || |name| > ID_MAX then Err(MalformedCanonical)
                   else if canonical !in old(Set()).entries then Err(UnknownResource)
                   else if |old(Set()).aliases| == MAX_ALIASES then Err(AliasPoolFull)
                   else Ok(())
      ensures r.Err? ==> Set() == old(Set())
      ensures r.Ok? ==> exists i: nat :: i < |old(Set()).entries| && old(Set()).entries[i] == canonical
                          && Set() == old(Set()).(aliases := old(Set()).aliases + [Alias(name, i)])
    {
      if name == [] || |name| > ID_MAX {
        return Err(MalformedCanonical);
      }
      var idx := FindEntry(canonical);
      if idx.None? {
        return Err(UnknownResource);
      }
      if aliasCount == MAX_ALIASES {
        return Err(AliasPoolFull);
      }
      ghost var before := aliases[..aliasCount];
      aliases[aliasCount] := Alias(name, idx.value);
      aliasCount := aliasCount + 1;
      assert aliases[..aliasCount] == before + [Alias(name, idx.value)];
      return Ok(());
    }

    method AliasHits(i: nat, proposed: bytes) returns (r: bool)
      requires Valid()
      ensures r <==> exists a <- Set().aliases :: a.entry == i && a.name == proposed
    {
      for k := 0 to aliasCount
        invariant forall j :: 0 <= j < k ==> !(aliases[j].entry == i && aliases[j].name == proposed)
      {
        if aliases[k].entry == i && aliases[k].name == proposed {
          assert aliases[k] in Set().aliases;
          return true;
        }
      }
      return false;
    }

    method Resolve(proposed: bytes) returns (r: Result<bytes, ResolveError>)
      requires Valid()
      ensures Resolution(Set(), proposed, r)
    {
      var found: Option<nat> := None;
      for i := 0 to entryCount
        invariant found.Some? ==> found.value < i && Set().Names(found.value, proposed)
        invariant forall k: nat :: k < i && Set().Names(k, proposed) ==> found == Some(k)
      {
        var hit := entries[i] == proposed;
        if !hit {
          hit := AliasHits(i, proposed);
        }
        if hit {
          assert Set().Names(i, proposed);
          if found.Some? {
            return Err(AmbiguousResource);
          }
          found := Some(i);
        }
      }
      if found.None? {
        return Err(UnknownResource);
      }
      var c := entries[found.value];
      assert Set().NamesOnly(found.value, proposed) && c in Set().entries;
      CanonicalLength(c);
      if c[4..4 + FP_HEX_LEN] != ownFp {
        return Err(ForeignExecutor);
      }
      return Ok(c);
    }

    // Resolve, then take the lock on the canonical form.
    method ProposeIntent(table: Intents.Table, intentId: bytes, proposed: bytes, now: u64)
      returns (r: Result<(), ResolveError>, ghost resolution: Result<bytes, ResolveError>)
      requires Valid()
      modifies table
      ensures Valid() && Set() == old(Set())
      ensures Resolution(Set(), proposed, resolution)
      ensures (r, table.entries) == ResolveAndAdmit(old(table.entries), Propose(intentId, proposed, resolution, now))
    {
      var canonical := Resolve(proposed);
      resolution := canonical;
      if canonical.Err? {
        return Err(canonical.error), resolution;
      }
      if |canonical.value| > Intents.MAX_RESOURCE {
        return Err(MalformedCanonical), resolution;
      }
      var admitted := table.AdmitIntent(intentId, canonical.value, now);
      r := if admitted.Ok? then Ok(()) else Err(Intent(admitted.error));
    }

    method SerializedLen() returns (n: nat)
      requires Valid()
      ensures n == |Serialized(Set())|
    {
      hide EncodeNames, AliasesOf, Flatten;
      ghost var d, bs := Set(), Blocks(Set());
      n := 0;
      EmptyFlatten();
      for i := 0 to entryCount
        invariant n == |Flatten(bs[..i])|
      {
        n := n + (2 + |entries[i]| + 2);
        EmptyNamesOf(d.aliases, i);
        for k := 0 to aliasCount
          invariant n == |Flatten(bs[..i])| + 2 + |d.entries[i]| + 2 + |EncodeNames(AliasesOf(d.aliases[..k], i))|
        {
          AliasesNext(d.aliases, i, k);
          NamesNext(AliasesOf(d.aliases[..k], i), d.aliases[k].name);
          if aliases[k].entry == i {
            n := n + (2 + |aliases[k].name|);
          } else {
            assert AliasesOf(d.aliases[..k], i) + [] == AliasesOf(d.aliases[..k], i);
          }
        }
        assert d.aliases[..aliasCount] == d.aliases;
        FlattenNext(bs, i);
      }
      assert bs[..entryCount] == bs;
    }

    method CountAliases(i: nat) returns (n: nat)
      requires Valid()
      ensures n == |AliasesOf(Set().aliases, i)|
    {
      ghost var d := Set();
      n := 0;
      for k := 0 to aliasCount
        invariant n == |AliasesOf(d.aliases[..k], i)|
      {
        AliasesNext(d.aliases, i, k);
        if aliases[k].entry == i {
          n := n + 1;
        }
      }
      assert d.aliases[..aliasCount] == d.aliases;
    }

    // Copy bytes into the buffer.
    static method Put(out: array<byte>, pos: nat, b: bytes) returns (end: nat)
      requires pos + |b| <= out.Length
      modifies out
      ensures end == pos + |b| && out[..end] == old(out[..pos]) + b && out[end..] == old(out[end..])
    {
      for k := 0 to |b|
        invariant forall j :: 0 <= j < out.Length ==>
                    out[j] == if pos <= j < pos + k then b[j - pos] else old(out[j])
      {
        out[pos + k] := b[k];
      }
      end := pos + |b|;
    }

    // The aliases of one entry, each behind its length.
    method PutAliases(out: array<byte>, start: nat, i: nat) returns (pos: nat)
      requires Valid() && start + |EncodeNames(AliasesOf(Set().aliases, i))| <= out.Length
      modifies out
      ensures Valid() && Set() == old(Set())
      ensures pos == start + |EncodeNames(AliasesOf(Set().aliases, i))|
      ensures out[..pos] == old(out[..start]) + EncodeNames(AliasesOf(Set().aliases, i))
      ensures out[pos..] == old(out[pos..])
    {
      hide EncodeNames, AliasesOf;
      ghost var d, before := Set(), out[..start];
      pos := start;
      EmptyNamesOf(d.aliases, i);
      assert before + [] == before;
      for k := 0 to aliasCount
        invariant Valid() && Set() == d
        invariant pos == start + |EncodeNames(AliasesOf(d.aliases[..k], i))| <= out.Length
        invariant out[..pos] == before + EncodeNames(AliasesOf(d.aliases[..k], i))
        invariant out[pos..] == old(out[pos..])
      {
        AliasesNext(d.aliases, i, k);
        NamesNext(AliasesOf(d.aliases[..k], i), d.aliases[k].name);
        NamesPrefix(d.aliases, i, k + 1);
        if aliases[k].entry != i {
          assert AliasesOf(d.aliases[..k], i) + [] == AliasesOf(d.aliases[..k], i);
          continue;
        }
        var name := aliases[k].name;
        ghost var done := EncodeNames(AliasesOf(d.aliases[..k], i));
        Reassociate(before, done, EncodeName(name));
        pos := Put(out, pos, EncodeName(name));
      }
      assert d.aliases[..aliasCount] == d.aliases;
    }

    // One entry, the number of its aliases, its aliases.
    method PutBlock(out: array<byte>, start: nat, i: nat) returns (pos: nat)
      requires Valid() && i < entryCount && start + |Blocks(Set())[i]| <= out.Length
      modifies out
      ensures Valid() && Set() == old(Set())
      ensures pos == start + |Blocks(Set())[i]|
      ensures out[..pos] == old(out[..start]) + Blocks(Set())[i]
      ensures out[pos..] == old(out[pos..])
    {
      hide EncodeNames, AliasesOf, EncodeName;
      ghost var d, before := Set(), out[..start];
      ghost var head, names := EncodeName(d.entries[i]), AliasesOf(d.aliases, i);
      ghost var count := Wire.U16Bytes(|names| % 0x1_0000);
      assert Blocks(d)[i] == head + (count + EncodeNames(names));
      pos := Put(out, start, EncodeName(entries[i]));
      var nAlias := CountAliases(i);
      pos := Put(out, pos, Wire.U16Bytes(nAlias % 0x1_0000));
      pos := PutAliases(out, pos, i);
      Reassociate(before, head, count);
      Reassociate(before, head + count, EncodeNames(names));
      Reassociate(head, count, EncodeNames(names));
    }

    // One more entry after those already written.
    method PutNext(out: array<byte>, pos: nat, i: nat) returns (next: nat)
      requires Valid() && i < entryCount && |Flatten(Blocks(Set()))| <= out.Length
      requires pos <= out.Length && out[..pos] == Flatten(Blocks(Set())[..i])
      modifies out
      ensures Valid() && Set() == old(Set()) && pos <= next <= out.Length
      ensures out[..next] == Flatten(Blocks(Set())[..i + 1])
      ensures forall k :: next <= k < out.Length ==> out[k] == old(out[k])
    {
      hide Flatten, EncodeBlock;
      ghost var bs := Blocks(Set());
      FlattenNext(bs, i);
      assert |out[..pos]| == pos;
      next := PutBlock(out, pos, i);
      forall k | next <= k < out.Length ensures out[k] == old(out[k]) {
        assert out[next..][k - next] == old(out[next..][k - next]);
      }
    }

    // All the entries, one after the other.
    method PutBlocks(out: array<byte>) returns (pos: nat)
      requires Valid() && |Serialized(Set())| <= out.Length
      modifies out
      ensures Valid() && Set() == old(Set()) && pos == |Serialized(Set())|
      ensures out[..pos] == Serialized(Set()) && out[pos..] == old(out[pos..])
    {
      ghost var d, bs := Set(), Blocks(Set());
      assert |bs| == entryCount && Serialized(d) == Flatten(bs);
      hide Flatten, EncodeBlock, Blocks, Serialized;
      pos := 0;
      EmptyFlatten();
      for i := 0 to entryCount
        invariant Valid() && Set() == d
        invariant pos <= out.Length && out[..pos] == Flatten(bs[..i])
        invariant forall k :: pos <= k < out.Length ==> out[k] == old(out[k])
      {
        pos := PutNext(out, pos, i);
      }
      assert bs[..entryCount] == bs;
      assert |out[..pos]| == pos;
    }

    // Write the set into the buffer, which must be long enough.
    method Serialize(out: array<byte>) returns (r: Result<nat, ResolveError>)
      requires Valid()
      modifies out
      ensures Valid() && Set() == old(Set())
      ensures r == if out.Length < |Serialized(Set())| then Err(BufferTooSmall) else Ok(|Serialized(Set())|)
      ensures r.Ok? ==> out[..r.value] == Serialized(Set()) && out[r.value..] == old(out[r.value..])
      ensures r.Err? ==> out[..] == old(out[..])
    {
      hide Resolver.Valid, Serialized;
      var len := SerializedLen();
      if out.Length < len {
        return Err(BufferTooSmall);
      }
      var pos := PutBlocks(out);
      return Ok(pos);
    }
  }

  lemma EmptyFlatten()
    ensures forall bs: seq<bytes> :: Flatten(bs[..0]) == []
  {
  }

  lemma EmptyNamesOf(aliases: seq<Alias>, i: nat)
    ensures EncodeNames(AliasesOf(aliases[..0], i)) == []
  {
    EmptyNames();
  }
}
