/** 64-bit words as numbers below 2^64, with the shift and mask operations of a
    `u64` written out arithmetically and characterised bit by bit. */
module Words {
  import opened Base

  const WORD_BITS := 64

  function Pow2(n: nat): (p: nat)
    ensures p >= 1
  {
    if n == 0 then 1 else 2 * Pow2(n - 1)
  }

  // Is bit i of w set?
  predicate Bit(w: nat, i: nat) {
    if i == 0 then w % 2 == 1 else Bit(w / 2, i - 1)
  }

  // w << s, with the bits beyond the word dropped
  function Shl(w: u64, s: nat): u64
    requires s < WORD_BITS
  {
    WordSize();
    (w * Pow2(s)) % Pow2(WORD_BITS)
  }

  // w with its low s bits dropped
  function Drop(w: nat, s: nat): (r: nat)
    ensures r <= w
  {
    if s == 0 then w else Drop(w / 2, s - 1)
  }

  // w >> s
  function Shr(w: u64, s: nat): u64
    requires s < WORD_BITS
  {
    Drop(w, s)
  }

  function OrNat(x: nat, y: nat): nat {
    if x == 0 && y == 0 then 0
    else 2 * OrNat(x / 2, y / 2) + (if x % 2 == 1 || y % 2 == 1 then 1 else 0)
  }

  // x | y
  function Or(x: u64, y: u64): u64 {
    WordSize();
    OrBelow(x, y, WORD_BITS);
    OrNat(x, y)
  }

  // 1 << b
  function Mask(b: nat): u64
    requires b < WORD_BITS
  {
    Shl(1, b)
  }

  lemma WordSize()
    ensures Pow2(WORD_BITS) == 0x1_0000_0000_0000_0000
  {
    HalfWordSize();
    Pow2Add(32, 32);
  }

  lemma HalfWordSize()
    ensures Pow2(32) == 0x1_0000_0000
  {
    assert Pow2(2) == 4;
    Pow2Add(2, 2);
    Pow2Add(4, 4);
    Pow2Add(8, 8);
    Pow2Add(16, 16);
  }

  lemma {:induction false} Pow2Add(a: nat, b: nat)
    ensures Pow2(a + b) == Pow2(a) * Pow2(b)
  {
    if a > 0 {
      Pow2Add(a - 1, b);
      assert Pow2(a + b) == 2 * Pow2(a - 1 + b);
    }
  }

  lemma {:induction false} BitHigh(w: nat, n: nat, i: nat)
    requires w < Pow2(n) && n <= i
    ensures !Bit(w, i)
  {
    if n > 0 {
      BitHigh(w / 2, n - 1, i - 1);
    } else if i > 0 {
      BitHigh(w / 2, 0, i - 1);
    }
  }

  lemma {:induction false} BitScale(w: nat, s: nat, i: nat)
    ensures Bit(w * Pow2(s), i) <==> i >= s && Bit(w, i - s)
  {
    if s > 0 {
      var half := w * Pow2(s - 1);
      assert w * Pow2(s) == 2 * half;
      if i > 0 {
        BitScale(w, s - 1, i - 1);
      }
    }
  }

  lemma ModHalf(x: nat, m: nat)
    requires m >= 1
    ensures (x % (2 * m)) / 2 == (x / 2) % m
    ensures (x % (2 * m)) % 2 == x % 2
  {
    var q, r := x / (2 * m), x % (2 * m);
    assert x == 2 * (m * q) + r;
    assert x / 2 == m * q + r / 2;
    assert r / 2 < m;
    ModUnique(x / 2, m, q, r / 2);
  }

  lemma MulAtLeast(m: nat, d: int)
    requires d >= 1
    ensures m * d >= m
  {
  }

  lemma ModUnique(a: nat, m: nat, q: int, r: nat)
    requires m >= 1 && r < m && a == m * q + r
    ensures a / m == q && a % m == r
  {
    var q', r' := a / m, a % m;
    var d := q - q';
    assert m * d == m * q - m * q' == r' - r;
    if d >= 1 {
      MulAtLeast(m, d);
    } else if d <= -1 {
      MulAtLeast(m, -d);
    }
  }

  lemma {:induction false} BitTruncate(x: nat, n: nat, i: nat)
    requires i < n
    ensures Bit(x % Pow2(n), i) == Bit(x, i)
  {
    ModHalf(x, Pow2(n - 1));
    if i > 0 {
      BitTruncate(x / 2, n - 1, i - 1);
    }
  }

  lemma {:induction false} BitDrop(w: nat, s: nat, i: nat)
    ensures Bit(Drop(w, s), i) == Bit(w, i + s)
  {
    if s > 0 {
      BitDrop(w / 2, s - 1, i);
    }
  }

  lemma {:induction false} OrBelow(x: nat, y: nat, n: nat)
    requires x < Pow2(n) && y < Pow2(n)
    ensures OrNat(x, y) < Pow2(n)
  {
    if x != 0 || y != 0 {
      OrBelow(x / 2, y / 2, n - 1);
    }
  }

  // The four facts the windows rest on.

  lemma BitShl(w: u64, s: nat, i: nat)
    requires s < WORD_BITS && i < WORD_BITS
    ensures Bit(Shl(w, s), i) <==> i >= s && Bit(w, i - s)
  {
    BitTruncate(w * Pow2(s), WORD_BITS, i);
    BitScale(w, s, i);
  }

  lemma BitShr(w: u64, s: nat, i: nat)
    requires s < WORD_BITS && i < WORD_BITS
    ensures Bit(Shr(w, s), i) <==> i + s < WORD_BITS && Bit(w, i + s)
  {
    BitDrop(w, s, i);
    if i + s >= WORD_BITS {
      WordSize();
      BitHigh(w, WORD_BITS, i + s);
    }
  }

  lemma {:induction false} BitOr(x: nat, y: nat, i: nat)
    ensures Bit(OrNat(x, y), i) <==> Bit(x, i) || Bit(y, i)
  {
    if x == 0 && y == 0 {
      BitZero(i);
    } else if i > 0 {
      BitOr(x / 2, y / 2, i - 1);
    }
  }

  lemma BitZero(i: nat)
    ensures !Bit(0, i)
  {
    BitHigh(0, 0, i);
  }

  lemma BitMask(b: nat, i: nat)
    requires b < WORD_BITS && i < WORD_BITS
    ensures Bit(Mask(b), i) <==> i == b
  {
    BitShl(1, b, i);
    if i > b {
      BitHigh(1, 1, i - b);
    }
  }
}
