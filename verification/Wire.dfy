/** Big-endian numbers on the wire. */
module Wire {
  import opened Base

  function Pow256(n: nat): (p: nat)
    ensures p >= 1
  {
    if n == 0 then 1 else 256 * Pow256(n - 1)
  }

  // The low n bytes of x, most significant first.
  function BeBytes(x: nat, n: nat): (b: bytes)
    ensures |b| == n
  {
    if n == 0 then [] else BeBytes(x / 256, n - 1) + [x % 256]
  }

  function BeValue(b: bytes): (x: nat)
    ensures x < Pow256(|b|)
  {
    if b == [] then 0 else 256 * BeValue(b[..|b| - 1]) + b[|b| - 1]
  }

  lemma {:induction false} ValueOfBytes(x: nat, n: nat)
    requires x < Pow256(n)
    ensures BeValue(BeBytes(x, n)) == x
  {
    if n > 0 {
      ValueOfBytes(x / 256, n - 1);
      var b := BeBytes(x, n);
      assert b[..|b| - 1] == BeBytes(x / 256, n - 1);
    }
  }

  lemma {:induction false} BytesOfValue(b: bytes)
    ensures BeBytes(BeValue(b), |b|) == b
  {
    if b != [] {
      var init := b[..|b| - 1];
      BytesOfValue(init);
      assert BeValue(b) / 256 == BeValue(init) && BeValue(b) % 256 == b[|b| - 1];
      assert b == init + [b[|b| - 1]];
    }
  }

  lemma Widths()
    ensures Pow256(2) == 0x1_0000 && Pow256(4) == 0x1_0000_0000 && Pow256(8) == 0x1_0000_0000_0000_0000
  {
    assert Pow256(3) == 256 * Pow256(2);
    assert Pow256(4) == 256 * Pow256(3);
    assert Pow256(5) == 256 * Pow256(4);
    assert Pow256(6) == 256 * Pow256(5);
    assert Pow256(7) == 256 * Pow256(6);
  }

  function U16Bytes(x: u16): (b: bytes)
    ensures |b| == 2
  {
    BeBytes(x, 2)
  }

  function U32Bytes(x: u32): (b: bytes)
    ensures |b| == 4
  {
    BeBytes(x, 4)
  }

  function U64Bytes(x: u64): (b: bytes)
    ensures |b| == 8
  {
    BeBytes(x, 8)
  }

  // The first byte counts most.
  lemma {:induction false} MostSignificantFirst(b: bytes)
    requires b != []
    ensures BeValue(b) == b[0] * Pow256(|b| - 1) + BeValue(b[1..])
  {
    if |b| > 1 {
      var init := b[..|b| - 1];
      MostSignificantFirst(init);
      assert b[1..][..|b| - 2] == init[1..];
      Shifted(b[0], Pow256(|b| - 2));
    }
  }

  lemma Shifted(x: nat, p: nat)
    ensures 256 * (x * p) == x * (256 * p)
  {
  }

  // The two-byte numbers, spelled out.
  lemma TwoBytes(x: u16)
    ensures U16Bytes(x) == [x / 256, x % 256]
  {
    assert BeBytes(x, 2) == BeBytes(x / 256, 1) + [x % 256];
    assert BeBytes(x / 256, 1) == BeBytes(x / 256 / 256, 0) + [x / 256 % 256];
  }

  function U16Of(b: bytes): (x: u16)
    requires |b| == 2
    ensures U16Bytes(x) == b
  {
    Widths();
    BytesOfValue(b);
    BeValue(b)
  }

  function U32Of(b: bytes): (x: u32)
    requires |b| == 4
    ensures U32Bytes(x) == b
  {
    Widths();
    BytesOfValue(b);
    BeValue(b)
  }

  function U64Of(b: bytes): (x: u64)
    requires |b| == 8
    ensures U64Bytes(x) == b
  {
    Widths();
    BytesOfValue(b);
    BeValue(b)
  }

  lemma U16RoundTrip(x: u16)
    ensures U16Of(U16Bytes(x)) == x
  {
    Widths();
    ValueOfBytes(x, 2);
  }

  lemma U32RoundTrip(x: u32)
    ensures U32Of(U32Bytes(x)) == x
  {
    Widths();
    ValueOfBytes(x, 4);
  }

  lemma U64RoundTrip(x: u64)
    ensures U64Of(U64Bytes(x)) == x
  {
    Widths();
    ValueOfBytes(x, 8);
  }
}
