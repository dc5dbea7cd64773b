/** The operator-declared resource set and its serialized form, which identifies it. */
module ResourceSet {
  import opened Base
  import opened Collections
  import opened Canonical
  import opened Wire

  const MAX_RESOURCES := 32
  const MAX_ALIASES := 64

  datatype Alias = Alias(name: bytes, entry: nat)

  // The declared set, for the executor with this fingerprint.
  datatype Declared = Declared(ownFp: bytes, entries: seq<bytes>, aliases: seq<Alias>) {
    ghost predicate Valid() {
      && |ownFp| == FP_HEX_LEN
      && |entries| <= MAX_RESOURCES && |aliases| <= MAX_ALIASES
      && Distinct(entries)
      && (forall e <- entries :: IsCanonical(e))
      && (forall a <- aliases :: a.entry < |entries| && 1 <= |a.name| <= ID_MAX)
    }

    // The proposal names entry i, by its canonical form or by an alias.
    predicate Names(i: nat, proposed: bytes)
      requires i < |entries|
    {
      entries[i] == proposed || exists a <- aliases :: a.entry == i && a.name == proposed
    }

    predicate Own(canonical: bytes) {
      |canonical| >= 4 + FP_HEX_LEN && canonical[4..4 + FP_HEX_LEN] == ownFp
    }

    // The proposal names entry i and no other.
    predicate NamesOnly(i: nat, proposed: bytes) {
      i < |entries| && Names(i, proposed) && forall k: nat :: k < |entries| && Names(k, proposed) ==> k == i
    }
  }

  // A canonical resource is the executor's own exactly when its fingerprint is.
  lemma OwnIff(d: Declared, fp: bytes, ns: bytes, path: bytes)
    requires |d.ownFp| == 16 && |fp| == 16
    ensures d.Own(SCHEME + fp + [SLASH] + ns + [SLASH] + path) <==> fp == d.ownFp
  {
    var id := SCHEME + fp + [SLASH] + ns + [SLASH] + path;
    assert id[4..20] == fp;
  }

  // ---------- serialization ----------

  // Blocks one after the other.
  function Flatten(blocks: seq<bytes>): bytes {
    if blocks == [] then [] else Flatten(blocks[..|blocks| - 1]) + blocks[|blocks| - 1]
  }

  function AliasesOf(aliases: seq<Alias>, i: nat): (names: seq<bytes>)
    ensures |names| <= |aliases|
    ensures forall x <- names :: exists a <- aliases :: a.entry == i && a.name == x
  {
    if aliases == [] then []
    else
      var init, last := aliases[..|aliases| - 1], aliases[|aliases| - 1];
      assert aliases == init + [last];
      AliasesOf(init, i) + (if last.entry == i then [last.name] else [])
  }

  // A name after its length; the length is cast to 16 bits.
  function EncodeName(name: bytes): bytes {
    U16Bytes(|name| % 0x1_0000) + name
  }

  function EncodeNames(names: seq<bytes>): bytes {
    Flatten(seq(|names|, k requires 0 <= k < |names| => EncodeName(names[k])))
  }

  // An entry, the number of its aliases, its aliases.
  function EncodeBlock(entry: bytes, names: seq<bytes>): bytes {
    EncodeName(entry) + (U16Bytes(|names| % 0x1_0000) + EncodeNames(names))
  }

  function Blocks(d: Declared): seq<bytes> {
    seq(|d.entries|, i requires 0 <= i < |d.entries| => EncodeBlock(d.entries[i], AliasesOf(d.aliases, i)))
  }

  function Serialized(d: Declared): bytes {
    Flatten(Blocks(d))
  }

  lemma Reassociate(a: bytes, b: bytes, c: bytes)
    ensures (a + b) + c == a + (b + c)
  {
  }

  lemma {:induction false} FlattenFront(b: bytes, bs: seq<bytes>)
    ensures Flatten([b] + bs) == b + Flatten(bs)
  {
    if bs == [] {
      assert [b] + bs == [b] && [b][..0] == [];
      assert Flatten([b]) == Flatten([]) + b;
    } else {
      var all, init := [b] + bs, bs[..|bs| - 1];
      assert all[..|all| - 1] == [b] + init;
      FlattenFront(b, init);
    }
  }

  lemma NamePrefixFree(a: bytes, x: bytes, b: bytes, y: bytes)
    requires |a| < 0x1_0000 && |b| < 0x1_0000
    requires EncodeName(a) + x == EncodeName(b) + y
    ensures a == b && x == y
  {
    var w := EncodeName(a) + x;
    assert w[..2] == U16Bytes(|a|) && w[..2] == U16Bytes(|b|);
    U16RoundTrip(|a|);
    U16RoundTrip(|b|);
    assert w[2..2 + |a|] == a && w[2..2 + |a|] == b;
    assert w[2 + |a|..] == x && w[2 + |a|..] == y;
  }

  lemma NamesFront(names: seq<bytes>)
    requires names != []
    ensures EncodeNames(names) == EncodeName(names[0]) + EncodeNames(names[1..])
  {
    var all := seq(|names|, k requires 0 <= k < |names| => EncodeName(names[k]));
    var rest := names[1..];
    var more := seq(|rest|, k requires 0 <= k < |rest| => EncodeName(rest[k]));
    assert all == [EncodeName(names[0])] + more;
    FlattenFront(EncodeName(names[0]), more);
  }

  predicate ShortNames(names: seq<bytes>) {
    |names| < 0x1_0000 && forall n <- names :: |n| < 0x1_0000
  }

  lemma {:induction false} NamesPrefixFree(a: seq<bytes>, x: bytes, b: seq<bytes>, y: bytes)
    requires ShortNames(a) && ShortNames(b) && |a| == |b|
    requires EncodeNames(a) + x == EncodeNames(b) + y
    ensures a == b && x == y
  {
    hide EncodeNames, EncodeName;
    if a == [] {
      EmptyNames();
      assert [] + x == x && [] + y == y;
    } else {
      NamesFront(a);
      NamesFront(b);
      var ra, rb := EncodeNames(a[1..]), EncodeNames(b[1..]);
      Reassociate(EncodeName(a[0]), ra, x);
      Reassociate(EncodeName(b[0]), rb, y);
      NamePrefixFree(a[0], ra + x, b[0], rb + y);
      NamesPrefixFree(a[1..], x, b[1..], y);
      assert a == [a[0]] + a[1..] && b == [b[0]] + b[1..];
    }
  }

  lemma EmptyNames()
    ensures EncodeNames([]) == []
  {
  }

  lemma BlockPrefixFree(a: bytes, na: seq<bytes>, x: bytes, b: bytes, nb: seq<bytes>, y: bytes)
    requires |a| < 0x1_0000 && |b| < 0x1_0000 && ShortNames(na) && ShortNames(nb)
    requires EncodeBlock(a, na) + x == EncodeBlock(b, nb) + y
    ensures a == b && na == nb && x == y
  {
    hide EncodeNames, EncodeName;
    var ta, tb := EncodeNames(na) + x, EncodeNames(nb) + y;
    Reassociate(EncodeName(a), U16Bytes(|na|) + EncodeNames(na), x);
    Reassociate(U16Bytes(|na|), EncodeNames(na), x);
    Reassociate(EncodeName(b), U16Bytes(|nb|) + EncodeNames(nb), y);
    Reassociate(U16Bytes(|nb|), EncodeNames(nb), y);
    NamePrefixFree(a, U16Bytes(|na|) + ta, b, U16Bytes(|nb|) + tb);
    var w := U16Bytes(|na|) + ta;
    assert w[..2] == U16Bytes(|na|) && w[..2] == U16Bytes(|nb|);
    assert w[2..] == ta && w[2..] == tb;
    U16RoundTrip(|na|);
    U16RoundTrip(|nb|);
    NamesPrefixFree(na, x, nb, y);
  }

  // ---------- the serialized set identifies the set ----------

  ghost predicate ShortSet(d: Declared) {
    && |d.aliases| < 0x1_0000
    && (forall e <- d.entries :: |e| < 0x1_0000)
    && (forall a <- d.aliases :: |a.name| < 0x1_0000)
  }

  function BlocksFrom(d: Declared, i: nat): seq<bytes>
    requires i <= |d.entries|
  {
    Blocks(d)[i..]
  }

  lemma {:induction false} SerializedDetermines(c: Declared, d: Declared, i: nat)
    requires ShortSet(c) && ShortSet(d) && i <= |c.entries| && i <= |d.entries|
    requires Flatten(BlocksFrom(c, i)) == Flatten(BlocksFrom(d, i))
    ensures |c.entries| == |d.entries|
    ensures forall k: nat :: i <= k < |c.entries| ==>
              c.entries[k] == d.entries[k] && AliasesOf(c.aliases, k) == AliasesOf(d.aliases, k)
    decreases |c.entries| - i
  {
    hide EncodeBlock, Flatten, BlocksFrom, Blocks, AliasesOf, ShortSet, ShortNames;
    FlattenEnd(c, i);
    FlattenEnd(d, i);
    if i < |c.entries| && i < |d.entries| {
      ShortAliases(c, i);
      ShortAliases(d, i);
      BlockPrefixFree(c.entries[i], AliasesOf(c.aliases, i), Flatten(BlocksFrom(c, i + 1)),
                      d.entries[i], AliasesOf(d.aliases, i), Flatten(BlocksFrom(d, i + 1)));
      SerializedDetermines(c, d, i + 1);
    }
  }

  lemma FlattenEnd(d: Declared, i: nat)
    requires i <= |d.entries|
    ensures Flatten(BlocksFrom(d, i)) == [] <==> i == |d.entries|
    ensures i < |d.entries| ==>
              Flatten(BlocksFrom(d, i))
              == EncodeBlock(d.entries[i], AliasesOf(d.aliases, i)) + Flatten(BlocksFrom(d, i + 1))
    ensures ShortSet(d) && i < |d.entries| ==> |d.entries[i]| < 0x1_0000
  {
    if i < |d.entries| {
      BlockInFront(d, i);
    }
  }

  lemma BlockInFront(d: Declared, i: nat)
    requires i < |d.entries|
    ensures Flatten(BlocksFrom(d, i))
        == EncodeBlock(d.entries[i], AliasesOf(d.aliases, i)) + Flatten(BlocksFrom(d, i + 1))
    ensures Flatten(BlocksFrom(d, i)) != []
  {
    var block := EncodeBlock(d.entries[i], AliasesOf(d.aliases, i));
    assert BlocksFrom(d, i) == [block] + BlocksFrom(d, i + 1);
    FlattenFront(block, BlocksFrom(d, i + 1));
  }

  lemma ShortAliases(d: Declared, i: nat)
    requires ShortSet(d)
    ensures ShortNames(AliasesOf(d.aliases, i))
  {
  }

  // The same entries in the same order, each with the same aliases in the same order.
  ghost predicate SameNaming(c: Declared, d: Declared) {
    && c.entries == d.entries
    && forall i: nat :: i < |c.entries| ==> AliasesOf(c.aliases, i) == AliasesOf(d.aliases, i)
  }

  lemma ValidIsShort(d: Declared)
    requires d.Valid()
    ensures ShortSet(d)
  {
    forall e | e in d.entries ensures |e| < 0x1_0000 {
      CanonicalLength(e);
    }
  }

  // The serialized form identifies the set.
  lemma SerializationInjective(c: Declared, d: Declared)
    requires c.Valid() && d.Valid()
    ensures Serialized(c) == Serialized(d) <==> SameNaming(c, d)
  {
    ValidIsShort(c);
    ValidIsShort(d);
    hide AliasesOf, EncodeBlock, ShortSet, Flatten;
    if Serialized(c) == Serialized(d) {
      assert BlocksFrom(c, 0) == Blocks(c) && BlocksFrom(d, 0) == Blocks(d);
      SerializedDetermines(c, d, 0);
      assert c.entries == d.entries;
    }
    if SameNaming(c, d) {
      assert Blocks(c) == Blocks(d);
    }
  }

  // ---------- prefixes ----------

  lemma {:induction false} FlattenPrefix(bs: seq<bytes>, n: nat)
    requires n <= |bs|
    ensures |Flatten(bs[..n])| <= |Flatten(bs)|
  {
    if n < |bs| {
      FlattenPrefix(bs[..|bs| - 1], n);
      assert bs[..|bs| - 1][..n] == bs[..n];
    } else {
      assert bs[..n] == bs;
    }
  }

  lemma FlattenNext(bs: seq<bytes>, n: nat)
    requires n < |bs|
    ensures Flatten(bs[..n + 1]) == Flatten(bs[..n]) + bs[n]
    ensures |Flatten(bs[..n])| + |bs[n]| <= |Flatten(bs)|
  {
    assert bs[..n + 1][..n] == bs[..n];
    FlattenPrefix(bs, n + 1);
  }

  lemma AliasesNext(aliases: seq<Alias>, i: nat, k: nat)
    requires k < |aliases|
    ensures AliasesOf(aliases[..k + 1], i)
            == AliasesOf(aliases[..k], i) + (if aliases[k].entry == i then [aliases[k].name] else [])
  {
    assert aliases[..k + 1][..k] == aliases[..k];
  }

  lemma NamesNext(names: seq<bytes>, name: bytes)
    ensures EncodeNames(names + [name]) == EncodeNames(names) + EncodeName(name)
  {
    var all := seq(|names|, k requires 0 <= k < |names| => EncodeName(names[k]));
    var more := names + [name];
    assert seq(|more|, k requires 0 <= k < |more| => EncodeName(more[k])) == all + [EncodeName(name)];
    assert (all + [EncodeName(name)])[..|all|] == all;
  }

  lemma {:induction false} NamesPrefix(aliases: seq<Alias>, i: nat, k: nat)
    requires k <= |aliases|
    ensures |EncodeNames(AliasesOf(aliases[..k], i))| <= |EncodeNames(AliasesOf(aliases, i))|
    decreases |aliases| - k
  {
    hide EncodeNames, AliasesOf;
    if k < |aliases| {
      NamesPrefix(aliases, i, k + 1);
      AliasesNext(aliases, i, k);
      if aliases[k].entry == i {
        NamesNext(AliasesOf(aliases[..k], i), aliases[k].name);
      } else {
        assert AliasesOf(aliases[..k], i) + [] == AliasesOf(aliases[..k], i);
      }
    } else {
      assert aliases[..k] == aliases;
    }
  }
}
