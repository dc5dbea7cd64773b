/** The 64-counter window of a transport session. It uses "highest == 0" to mean
    "nothing seen yet", so it forgets counter 0; every other counter is admitted at most once. */
module SessionWindow {
  import opened Base
  import opened Words

  const SPAN := 64

  // What the window still remembers decides the verdict: with nothing but counter 0
  // behind it the window starts afresh.
  ghost predicate Fresh(seen: set<u64>, counter: u64) {
    || seen <= {0}
    || (counter !in seen && forall a <- seen :: a < counter + SPAN)
  }

  ghost function Remember(seen: set<u64>, counter: u64): set<u64> {
    if seen <= {0} then {counter}
    else if Fresh(seen, counter) then seen + {counter}
    else seen
  }

  ghost function RememberAll(seen: set<u64>, cs: seq<u64>): set<u64>
    decreases cs
  {
    if cs == [] then seen else RememberAll(Remember(seen, cs[0]), cs[1..])
  }

  ghost predicate Verdict(cs: seq<u64>, i: nat)
    requires i < |cs|
  {
    Fresh(RememberAll({}, cs[..i]), cs[i])
  }

  ghost predicate AtMostOnce(c: u64) {
    forall cs: seq<u64>, i: nat, j: nat ::
      i < j < |cs| && cs[i] == c && cs[j] == c ==> !(Verdict(cs, i) && Verdict(cs, j))
  }

  lemma {:induction false} RememberAllSplit(seen: set<u64>, cs: seq<u64>, ds: seq<u64>)
    ensures RememberAll(seen, cs + ds) == RememberAll(RememberAll(seen, cs), ds)
    decreases cs
  {
    if cs == [] {
      assert cs + ds == ds;
    } else {
      assert (cs + ds)[0] == cs[0] && (cs + ds)[1..] == cs[1..] + ds;
      RememberAllSplit(Remember(seen, cs[0]), cs[1..], ds);
    }
  }

  lemma {:induction false} NonzeroKept(seen: set<u64>, cs: seq<u64>, c: u64)
    requires c != 0 && c in seen
    ensures c in RememberAll(seen, cs)
    decreases cs
  {
    if cs != [] {
      NonzeroKept(Remember(seen, cs[0]), cs[1..], c);
    }
  }

  // At-most-once holds over every run for exactly the nonzero counters.
  lemma AtMostOnceIffNonzero(c: u64)
    ensures AtMostOnce(c) <==> c != 0
  {
    if c == 0 {
      ZeroAcceptedTwice();
    } else {
      forall cs: seq<u64>, i: nat, j: nat | i < j < |cs| && cs[i] == c && cs[j] == c && Verdict(cs, i)
        ensures !Verdict(cs, j)
      {
        var rest := [cs[i]] + cs[i + 1..j];
        assert cs[..j] == cs[..i] + rest && rest[1..] == cs[i + 1..j];
        RememberAllSplit({}, cs[..i], rest);
        NonzeroKept(Remember(RememberAll({}, cs[..i]), c), cs[i + 1..j], c);
      }
    }
  }

  // The counters 0, 0: both are accepted.
  lemma ZeroAcceptedTwice()
    ensures Verdict([0, 0], 0) && Verdict([0, 0], 1)
    ensures !AtMostOnce(0)
  {
    var cs: seq<u64> := [0, 0];
    assert cs[..0] == [] && cs[..1] == [0];
    assert RememberAll({}, []) == {};
    assert cs[..1][1..] == [];
    assert RememberAll({}, cs[..1]) == RememberAll(Remember({}, 0), []);
    var i: nat, j: nat := 0, 1;
    assert i < j < |cs| && cs[i] == 0 && cs[j] == 0 && Verdict(cs, i) && Verdict(cs, j);
  }

  lemma {:induction false} RememberedCame(seen: set<u64>, cs: seq<u64>, c: u64)
    requires c in RememberAll(seen, cs)
    ensures c in seen || c in cs
    decreases cs
  {
    if cs != [] {
      RememberedCame(Remember(seen, cs[0]), cs[1..], c);
    }
  }

  // Reordering within the window costs nothing: a counter that has not come before and is overtaken by less than 64
  // is admitted.
  lemma ReorderingTolerated(cs: seq<u64>, i: nat)
    requires i < |cs|
    requires forall j :: 0 <= j < i ==> cs[j] != cs[i] && cs[j] < cs[i] as int + 64
    ensures Verdict(cs, i)
  {
    forall a | a in RememberAll({}, cs[..i])
      ensures a != cs[i] && a < cs[i] as int + 64
    {
      RememberedCame({}, cs[..i], a);
      var j :| 0 <= j < i && cs[j] == a;
    }
  }

  // A counter the window has moved 64 past is refused for good.
  lemma TooLateRefused(cs: seq<u64>, i: nat, j: nat)
    requires j < i < |cs| && Verdict(cs, j) && cs[j] != 0 && cs[j] >= cs[i] as int + 64
    ensures !Verdict(cs, i)
  {
    var rest := [cs[j]] + cs[j + 1..i];
    assert cs[..i] == cs[..j] + rest && rest[1..] == cs[j + 1..i];
    RememberAllSplit({}, cs[..j], rest);
    NonzeroKept(Remember(RememberAll({}, cs[..j]), cs[j]), cs[j + 1..i], cs[j]);
  }

  // ---------- counter 0 ----------

  // Something other than 0 has come, and 0 after it.
  ghost predicate ZeroAfterNonzero(cs: seq<u64>) {
    exists i, k :: 0 <= i < k < |cs| && cs[i] != 0 && cs[k] == 0
  }

  ghost predicate AllZero(cs: seq<u64>) {
    forall i :: 0 <= i < |cs| ==> cs[i] == 0
  }

  ghost predicate AllWithinSpan(cs: seq<u64>) {
    forall i :: 0 <= i < |cs| ==> cs[i] < SPAN
  }

  lemma ZeroAfterNonzeroStep(cs: seq<u64>, c: u64)
    ensures ZeroAfterNonzero(cs + [c]) <==> ZeroAfterNonzero(cs) || (c == 0 && !AllZero(cs))
  {
    var ds := cs + [c];
    if ZeroAfterNonzero(cs) {
      var i, k :| 0 <= i < k < |cs| && cs[i] != 0 && cs[k] == 0;
      assert ds[i] != 0 && ds[k] == 0;
    }
    if c == 0 && !AllZero(cs) {
      var i :| 0 <= i < |cs| && cs[i] != 0;
      assert ds[i] != 0 && ds[|cs|] == 0;
    }
  }

  lemma ExtendedBy(cs: seq<u64>, c: u64)
    ensures AllZero(cs + [c]) <==> AllZero(cs) && c == 0
    ensures AllWithinSpan(cs + [c]) <==> AllWithinSpan(cs) && c < SPAN
  {
    var ds := cs + [c];
    assert ds[|cs|] == c && forall i :: 0 <= i < |cs| ==> ds[i] == cs[i];
  }

  // What the window remembers of counters as they came, as far as counter 0 is concerned.
  ghost predicate ZeroMemory(cs: seq<u64>, seen: set<u64>) {
    && (seen <= {0} <==> AllZero(cs))
    && ((forall a <- seen :: a < SPAN) <==> AllWithinSpan(cs))
    && (!AllZero(cs) && 0 in seen ==> ZeroAfterNonzero(cs))
    && (ZeroAfterNonzero(cs) && AllWithinSpan(cs) ==> 0 in seen)
  }

  lemma ZeroMemoryStep(cs: seq<u64>, seen: set<u64>, c: u64)
    requires ZeroMemory(cs, seen)
    ensures ZeroMemory(cs + [c], Remember(seen, c))
  {
    hide ZeroAfterNonzero, AllZero, AllWithinSpan;
    ZeroAfterNonzeroStep(cs, c);
    ExtendedBy(cs, c);
    if seen <= {0} {
      NothingButZero(cs);
    }
  }

  lemma NothingButZero(cs: seq<u64>)
    ensures AllZero(cs) ==> AllWithinSpan(cs) && !ZeroAfterNonzero(cs)
  {
  }

  lemma {:induction false} RunZeroMemory(cs: seq<u64>)
    ensures ZeroMemory(cs, RememberAll({}, cs))
  {
    if cs != [] {
      var before, c := cs[..|cs| - 1], cs[|cs| - 1];
      assert cs == before + [c];
      RunZeroMemory(before);
      RememberAllSplit({}, before, [c]);
      var seen := RememberAll({}, before);
      assert RememberAll(seen, [c]) == RememberAll(Remember(seen, c), []);
      ZeroMemoryStep(before, seen, c);
    }
  }

  // Counter 0 is admitted, again or for the first time, exactly when all counters before it lie below 64 and none of
  // its earlier occurrences followed another counter.
  lemma ZeroAdmittedIff(cs: seq<u64>, j: nat)
    requires j < |cs| && cs[j] == 0
    ensures Verdict(cs, j) <==> AllWithinSpan(cs[..j]) && !ZeroAfterNonzero(cs[..j])
  {
    hide ZeroAfterNonzero, AllZero, AllWithinSpan;
    RunZeroMemory(cs[..j]);
    NothingButZero(cs[..j]);
  }

  // Two occurrences of counter 0 are both admitted exactly when the second is and nothing but 0 came before the first.
  lemma ZeroAdmittedTwiceIff(cs: seq<u64>, i: nat, j: nat)
    requires i < j < |cs| && cs[i] == 0 && cs[j] == 0
    ensures Verdict(cs, i) && Verdict(cs, j) <==> AllWithinSpan(cs[..j]) && !ZeroAfterNonzero(cs[..j])
    ensures Verdict(cs, j) ==> AllZero(cs[..i])
  {
    hide Verdict;
    ZeroAdmittedIff(cs, i);
    ZeroAdmittedIff(cs, j);
    EarlierToo(cs, i, j);
  }

  lemma EarlierToo(cs: seq<u64>, i: nat, j: nat)
    requires i < j <= |cs| && cs[i] == 0
    ensures !ZeroAfterNonzero(cs[..j]) ==> AllZero(cs[..i]) && !ZeroAfterNonzero(cs[..i])
    ensures AllWithinSpan(cs[..j]) ==> AllWithinSpan(cs[..i])
  {
    var ds := cs[..j];
    assert forall k :: 0 <= k < i ==> cs[..i][k] == ds[k];
    if k :| 0 <= k < i && cs[..i][k] != 0 {
      assert ds[k] != 0 && ds[i] == 0;
    }
    NothingButZero(cs[..i]);
  }

  // Slide the mask and mark the newest counter.
  lemma SlideBit(mask: u64, shift: nat, i: nat)
    requires 0 < shift && i < SPAN
    ensures Bit(Or(if shift >= SPAN then 0 else Shl(mask, shift), 1), i)
            <==> i == 0 || (i >= shift && Bit(mask, i - shift))
  {
    BitOr(if shift >= SPAN then 0 else Shl(mask, shift), 1, i);
    if i > 0 {
      BitHigh(1, 1, i);
    }
    if shift >= SPAN {
      BitZero(i);
    } else {
      BitShl(mask, shift, i);
    }
  }

  // Bit i of the mask is set exactly when counter highest - i is remembered.
  ghost predicate Mirrors(mask: u64, highest: u64, seen: set<u64>) {
    forall i: nat :: i < SPAN ==> (Bit(mask, i) <==> i <= highest && highest - i in seen)
  }

  lemma SlideMirrors(mask: u64, highest: u64, seen: set<u64>, counter: u64, slid: u64)
    requires Mirrors(mask, highest, seen) && counter > highest
    requires forall a <- seen :: a <= highest
    requires slid == Or(if counter - highest >= SPAN then 0 else Shl(mask, counter - highest), 1)
    ensures Mirrors(slid, counter, seen + {counter})
  {
    forall i: nat | i < SPAN
      ensures Bit(slid, i) <==> i <= counter && counter - i in seen + {counter}
    {
      SlideBit(mask, counter - highest, i);
      if i >= counter - highest {
        assert Bit(mask, i - (counter - highest)) <==> counter - i >= 0 && counter - i in seen;
      }
    }
  }

  lemma MarkMirrors(mask: u64, highest: u64, seen: set<u64>, counter: u64, marked: u64)
    requires Mirrors(mask, highest, seen) && counter <= highest < counter + SPAN
    requires marked == Or(mask, Mask(highest - counter))
    ensures Mirrors(marked, highest, seen + {counter})
  {
    forall i: nat | i < SPAN
      ensures Bit(marked, i) <==> i <= highest && highest - i in seen + {counter}
    {
      BitOr(mask, Mask(highest - counter), i);
      BitMask(highest - counter, i);
    }
  }

  lemma OneMirrors(counter: u64)
    ensures Mirrors(1, counter, {counter})
  {
    forall i: nat | i < SPAN ensures Bit(1, i) <==> i == 0 {
      if i > 0 { BitHigh(1, 1, i); }
    }
  }

  class ReplayWindow {
    var highest: u64
    var mask: u64
    ghost var seen: set<u64>

    ghost predicate Valid()
      reads this
    {
      && (forall a <- seen :: a <= highest)
      && (highest > 0 ==> highest in seen && Mirrors(mask, highest, seen))
    }

    constructor ()
      ensures Valid() && seen == {}
    {
      highest, mask, seen := 0, 0, {};
    }

    method Check(counter: u64) returns (isFresh: bool)
      requires Valid()
      modifies this
      ensures Valid()
      ensures isFresh <==> Fresh(old(seen), counter)
      ensures seen == Remember(old(seen), counter)
    {
      if highest == 0 {
        highest, mask, seen := counter, 1, {counter};
        OneMirrors(counter);
        return true;
      }
      if counter > highest {
        var shift := counter - highest;
        ghost var before := mask;
        if shift >= SPAN {
          mask := 0;
        } else {
          mask := Shl(mask, shift);
        }
        mask := Or(mask, 1);
        SlideMirrors(before, highest, seen, counter, mask);
        highest, seen := counter, seen + {counter};
        return true;
      }
      if counter == highest {
        return false;
      }
      var behind := highest - counter;
      if behind >= SPAN {
        return false;
      }
      if Bit(mask, behind) {
        return false;
      }
      ghost var before := mask;
      mask := Or(mask, Mask(behind));
      MarkMirrors(before, highest, seen, counter, mask);
      seen := seen + {counter};
      return true;
    }
  }
}
