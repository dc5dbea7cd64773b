/** The 1024-counter anti-replay window: a bitmap of sixteen words, shifted in place. */
module Replay {
  import opened Base
  import opened Words

  const WINDOW_BITS := 1024
  const WINDOW_WORDS := 16

  // ---------- what the window decides, in terms of the counters accepted so far ----------

  // A counter is fresh when it was never accepted and no accepted counter is a
  // full window ahead of it.
  ghost predicate Fresh(accepted: set<u64>, counter: u64) {
    && counter !in accepted
    && forall a <- accepted :: a < counter + WINDOW_BITS
  }

  ghost function Accept(accepted: set<u64>, counter: u64): set<u64> {
    if Fresh(accepted, counter) then accepted + {counter} else accepted
  }

  // The counters accepted after offering cs in order.
  ghost function AcceptAll(accepted: set<u64>, cs: seq<u64>): set<u64>
    decreases cs
  {
    if cs == [] then accepted else AcceptAll(Accept(accepted, cs[0]), cs[1..])
  }

  // The verdict on the i-th counter of a run that starts from `accepted`.
  ghost predicate Verdict(accepted: set<u64>, cs: seq<u64>, i: nat)
    requires i < |cs|
  {
    Fresh(AcceptAll(accepted, cs[..i]), cs[i])
  }

  lemma {:induction false} AcceptAllSplit(accepted: set<u64>, cs: seq<u64>, ds: seq<u64>)
    ensures AcceptAll(accepted, cs + ds) == AcceptAll(AcceptAll(accepted, cs), ds)
    decreases cs
  {
    if cs == [] {
      assert cs + ds == ds;
    } else {
      assert (cs + ds)[0] == cs[0] && (cs + ds)[1..] == cs[1..] + ds;
      AcceptAllSplit(Accept(accepted, cs[0]), cs[1..], ds);
    }
  }

  lemma {:induction false} AcceptAllGrows(accepted: set<u64>, cs: seq<u64>)
    ensures accepted <= AcceptAll(accepted, cs)
    decreases cs
  {
    if cs != [] {
      AcceptAllGrows(Accept(accepted, cs[0]), cs[1..]);
    }
  }

  lemma {:induction false} AcceptAllFrom(accepted: set<u64>, cs: seq<u64>, c: u64)
    requires c in AcceptAll(accepted, cs)
    ensures c in accepted || c in cs
    decreases cs
  {
    if cs != [] {
      AcceptAllFrom(Accept(accepted, cs[0]), cs[1..], c);
    }
  }

  // Over any run, no counter is accepted twice.
  lemma AtMostOnce(accepted: set<u64>, cs: seq<u64>, i: nat, j: nat)
    requires i < j < |cs| && cs[i] == cs[j]
    ensures !(Verdict(accepted, cs, i) && Verdict(accepted, cs, j))
  {
    if Verdict(accepted, cs, i) {
      assert cs[..j] == cs[..i] + ([cs[i]] + cs[i + 1..j]);
      AcceptAllSplit(accepted, cs[..i], [cs[i]] + cs[i + 1..j]);
      assert ([cs[i]] + cs[i + 1..j])[1..] == cs[i + 1..j];
      AcceptAllGrows(Accept(AcceptAll(accepted, cs[..i]), cs[i]), cs[i + 1..j]);
    }
  }

  // Reordering within the window costs nothing: a counter that appears once and is
  // overtaken by less than the window is always accepted.
  lemma ReorderingTolerated(cs: seq<u64>, i: nat)
    requires i < |cs|
    requires forall j :: 0 <= j < i ==> cs[j] != cs[i] && cs[j] < cs[i] + WINDOW_BITS
    ensures Verdict({}, cs, i)
  {
    forall a | a in AcceptAll({}, cs[..i])
      ensures a != cs[i] && a < cs[i] + WINDOW_BITS
    {
      AcceptAllFrom({}, cs[..i], a);
      var j :| 0 <= j < i && cs[j] == a;
    }
  }

  // ---------- the bitmap ----------

  predicate WinBit(win: seq<u64>, i: nat)
    requires |win| == WINDOW_WORDS && i < WINDOW_BITS
  {
    Bit(win[i / WORD_BITS], i % WORD_BITS)
  }

  // Word w of the window after a shift by 64 * ws + bs.
  function ShiftedWord(win: seq<u64>, w: nat, ws: nat, bs: nat): u64
    requires |win| == WINDOW_WORDS && w < WINDOW_WORDS && bs < WORD_BITS
  {
    if w < ws then 0
    else if bs == 0 then win[w - ws]
    else if w < ws + 1 then Shl(win[w - ws], bs)
    else Or(Shl(win[w - ws], bs), Shr(win[w - ws - 1], WORD_BITS - bs))
  }

  lemma ShiftedWordBit(win: seq<u64>, ws: nat, bs: nat, w: nat, b: nat)
    requires |win| == WINDOW_WORDS && bs < WORD_BITS && w < WINDOW_WORDS && b < WORD_BITS
    ensures var i, shift := WORD_BITS * w + b, WORD_BITS * ws + bs;
            Bit(ShiftedWord(win, w, ws, bs), b) <==> i >= shift && WinBit(win, i - shift)
  {
    hide Bit, Shl, Shr, Or, WinBit;
    if w < ws {
      BitZero(b);
    } else if bs == 0 {
      WinBitAt(win, w - ws, b);
    } else {
      ShiftedPair(win, w, ws, bs, b);
      if b >= bs {
        WinBitAt(win, w - ws, b - bs);
      } else if w > ws {
        WinBitAt(win, w - ws - 1, b + WORD_BITS - bs);
      }
    }
  }

  lemma WinBitAt(win: seq<u64>, w: nat, b: nat)
    requires |win| == WINDOW_WORDS && w < WINDOW_WORDS && b < WORD_BITS
    ensures WinBit(win, WORD_BITS * w + b) == Bit(win[w], b)
  {
    ModUnique(WORD_BITS * w + b, WORD_BITS, w, b);
  }

  // A word assembled from two neighbours takes its low bits from the lower one.
  lemma ShiftedPair(win: seq<u64>, w: nat, ws: nat, bs: nat, b: nat)
    requires |win| == WINDOW_WORDS && ws <= w < WINDOW_WORDS && 0 < bs < WORD_BITS && b < WORD_BITS
    ensures Bit(ShiftedWord(win, w, ws, bs), b) <==>
            if b >= bs then Bit(win[w - ws], b - bs)
            else w > ws && Bit(win[w - ws - 1], b + WORD_BITS - bs)
  {
    BitShl(win[w - ws], bs, b);
    if w > ws {
      BitShr(win[w - ws - 1], WORD_BITS - bs, b);
      BitOr(Shl(win[w - ws], bs), Shr(win[w - ws - 1], WORD_BITS - bs), b);
    }
  }

  // The window slid by `shift`: what was bit i is now bit i + shift.
  ghost predicate Slid(before: seq<u64>, after: seq<u64>, shift: u64)
    requires |before| == |after| == WINDOW_WORDS
  {
    forall i: nat :: i < WINDOW_BITS ==>
      (WinBit(after, i) <==> i >= shift && WinBit(before, i - shift))
  }

  lemma SlidByWords(before: seq<u64>, after: seq<u64>, shift: u64)
    requires |before| == |after| == WINDOW_WORDS
    requires forall j: nat :: j < WINDOW_WORDS ==>
               after[j] == ShiftedWord(before, j, shift / WORD_BITS, shift % WORD_BITS)
    ensures Slid(before, after, shift)
  {
    forall i: nat | i < WINDOW_BITS
      ensures WinBit(after, i) <==> i >= shift && WinBit(before, i - shift)
    {
      ShiftedWordBit(before, shift / WORD_BITS, shift % WORD_BITS, i / WORD_BITS, i % WORD_BITS);
    }
  }

  // Shifted past its width, the window is empty.
  lemma SlidAway(before: seq<u64>, after: seq<u64>, shift: u64)
    requires |before| == |after| == WINDOW_WORDS && shift >= WINDOW_BITS
    requires forall j :: 0 <= j < WINDOW_WORDS ==> after[j] == 0
    ensures Slid(before, after, shift)
  {
    forall i: nat | i < WINDOW_BITS ensures !WinBit(after, i) {
      BitZero(i % WORD_BITS);
    }
  }

  method ShiftLeft(win: array<u64>, shift: u64)
    requires win.Length == WINDOW_WORDS
    modifies win
    ensures Slid(old(win[..]), win[..], shift)
  {
    hide Slid;
    ghost var before := win[..];
    if shift >= WINDOW_BITS {
      for k := 0 to WINDOW_WORDS
        invariant forall j :: 0 <= j < k ==> win[j] == 0
      {
        win[k] := 0;
      }
      SlidAway(before, win[..], shift);
      return;
    }
    var wordShift := shift / WORD_BITS;
    var bitShift := shift % WORD_BITS;
    var w := WINDOW_WORDS;
    while w > 0
      invariant 0 <= w <= WINDOW_WORDS
      invariant forall j :: 0 <= j < w ==> win[j] == before[j]
      invariant forall j :: w <= j < WINDOW_WORDS ==> win[j] == ShiftedWord(before, j, wordShift, bitShift)
    {
      w := w - 1;
      var v: u64 := 0;
      if bitShift == 0 {
        if w >= wordShift {
          v := win[w - wordShift];
        }
      } else {
        if w >= wordShift {
          v := Shl(win[w - wordShift], bitShift);
        }
        if w >= wordShift + 1 {
          v := Or(v, Shr(win[w - wordShift - 1], WORD_BITS - bitShift));
        }
      }
      win[w] := v;
    }
    SlidByWords(before, win[..], shift);
  }

  class ReplayWindow {
    const window: array<u64>
    var largest: u64
    var initialized: bool
    ghost var accepted: set<u64>

    // Bit i of the window is set exactly when counter largest - i was accepted.
    ghost predicate Valid()
      reads this, window
    {
      && window.Length == WINDOW_WORDS
      && (initialized <==> accepted != {})
      && (forall a <- accepted :: a <= largest)
      && (initialized ==> largest in accepted)
      && (forall i: nat :: i < WINDOW_BITS ==>
            (WinBit(window[..], i) <==> initialized && i <= largest && largest - i in accepted))
    }

    constructor ()
      ensures Valid() && accepted == {} && fresh(window)
    {
      window := new u64[WINDOW_WORDS](_ => 0);
      largest, initialized, accepted := 0, false, {};
      new;
      forall i: nat | i < WINDOW_BITS ensures !WinBit(window[..], i) {
        BitZero(i % WORD_BITS);
      }
    }

    // Set bit i, leaving the others alone.
    method SetBit(i: nat)
      requires window.Length == WINDOW_WORDS && i < WINDOW_BITS
      modifies window
      ensures forall k: nat :: k < WINDOW_BITS ==>
                (WinBit(window[..], k) <==> k == i || WinBit(old(window[..]), k))
    {
      var w, b := i / WORD_BITS, i % WORD_BITS;
      ghost var before := window[..];
      window[w] := Or(window[w], Mask(b));
      forall k: nat | k < WINDOW_BITS
        ensures WinBit(window[..], k) <==> k == i || WinBit(before, k)
      {
        if k / WORD_BITS == w {
          BitOr(before[w], Mask(b), k % WORD_BITS);
          BitMask(b, k % WORD_BITS);
        }
      }
    }

    // True for a fresh counter, false for a replayed or stale one; a fresh counter is recorded.
    method Check(counter: u64) returns (isFresh: bool)
      requires Valid()
      modifies this, window
      ensures Valid()
      ensures isFresh <==> Fresh(old(accepted), counter)
      ensures accepted == Accept(old(accepted), counter)
    {
      if !initialized {
        initialized, largest := true, counter;
        SetBit(0);
        accepted := {counter};
        return true;
      }
      if counter > largest {
        var shift := counter - largest;
        ghost var before := window[..];
        ShiftLeft(window, shift);
        SetBit(0);
        forall i: nat | i < WINDOW_BITS
          ensures WinBit(window[..], i) <==> i <= counter && counter - i in accepted + {counter}
        {
          if i >= shift {
            assert counter - i == largest - (i - shift);
          }
        }
        largest := counter;
        accepted := accepted + {counter};
        return true;
      }
      var diff := largest - counter;
      if diff >= WINDOW_BITS {
        return false;
      }
      assert WinBit(window[..], diff) <==> counter in accepted;
      if Bit(window[diff / WORD_BITS], diff % WORD_BITS) {
        return false;
      }
      SetBit(diff);
      forall i: nat | i < WINDOW_BITS
        ensures WinBit(window[..], i) <==> i <= largest && largest - i in accepted + {counter}
      {
      }
      accepted := accepted + {counter};
      return true;
    }
  }
}
