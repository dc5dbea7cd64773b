/** Certificate scopes: a certificate covers a resource when it lists the truncated hash of the
    resource's full name or of one of its ancestors. */
module Scope {
  import opened Base
  import opened Codec

  const SLASH: byte := 0x2f

  // The 32-byte hash, supplied from outside.
  type Hash = bytes -> bytes

  // The scope id of a name: its hash cut to 8 bytes.
  function ScopeId(hash: Hash, name: bytes): bytes {
    var h := hash(name);
    if |h| < LEN_SCOPE_ID then h else h[..LEN_SCOPE_ID]
  }

  // The scope id is one of the certificate's, read at its packed position.
  predicate Carries(c: Cert, scope: bytes) {
    exists i: nat :: i < c.scopeCount && ScopeAt(c, i, scope)
  }

  predicate ScopeAt(c: Cert, i: nat, scope: bytes) {
    && i * LEN_SCOPE_ID + LEN_SCOPE_ID <= |c.scopeIds|
    && c.scopeIds[i * LEN_SCOPE_ID..i * LEN_SCOPE_ID + LEN_SCOPE_ID] == scope
  }

  // The first n bytes are the resource itself or an ancestor: n stands just before a slash or at the end.
  predicate IsAncestorName(resource: bytes, n: nat) {
    0 < n <= |resource| && (n == |resource| || resource[n] == SLASH)
  }

  predicate ListsPrefix(c: Cert, hash: Hash, resource: bytes, n: nat)
    requires n <= |resource|
  {
    Carries(c, ScopeId(hash, resource[..n]))
  }

  ghost predicate Covers(c: Cert, hash: Hash, resource: bytes) {
    exists n: nat :: IsAncestorName(resource, n) && ListsPrefix(c, hash, resource, n)
  }

  // Covering a resource covers everything below it.
  lemma CoverageDescends(c: Cert, hash: Hash, resource: bytes, below: bytes)
    requires Covers(c, hash, resource)
    ensures Covers(c, hash, resource + [SLASH] + below)
  {
    var n: nat :| IsAncestorName(resource, n) && ListsPrefix(c, hash, resource, n);
    var full := resource + [SLASH] + below;
    assert full[..n] == resource[..n];
    assert IsAncestorName(full, n) && ListsPrefix(c, hash, full, n);
  }

  // And only a listed ancestor can: nothing above the name matters beyond its own prefixes.
  lemma CoverageOfChild(c: Cert, hash: Hash, parent: bytes, name: bytes)
    requires SLASH !in name && parent != []
    ensures var child := parent + [SLASH] + name;
            Covers(c, hash, child) <==> ListsPrefix(c, hash, child, |child|) || Covers(c, hash, parent)
  {
    var child := parent + [SLASH] + name;
    if Covers(c, hash, child) {
      var n: nat :| IsAncestorName(child, n) && ListsPrefix(c, hash, child, n);
      if n < |child| {
        assert n <= |parent|;
        assert child[..n] == parent[..n];
        assert IsAncestorName(parent, n) && ListsPrefix(c, hash, parent, n);
      }
    }
    if Covers(c, hash, parent) {
      CoverageDescends(c, hash, parent, name);
    }
    if ListsPrefix(c, hash, child, |child|) {
      assert IsAncestorName(child, |child|);
    }
  }

  // A name without a slash has no ancestor, and the empty name none at all.
  lemma CoverageOfRoot(c: Cert, hash: Hash, name: bytes)
    requires SLASH !in name
    ensures Covers(c, hash, name) <==> name != [] && ListsPrefix(c, hash, name, |name|)
  {
    if name != [] && ListsPrefix(c, hash, name, |name|) {
      assert IsAncestorName(name, |name|);
    }
  }

  // A name is listed when the first eight bytes of its hash are one of the certificate's packed scopes.
  lemma ListedIff(c: Cert, hash: Hash, resource: bytes)
    requires |hash(resource)| == 32 && |c.scopeIds| == 8 * c.scopeCount
    ensures ListsPrefix(c, hash, resource, |resource|) <==>
              exists i: nat :: i < c.scopeCount && c.scopeIds[8 * i..8 * i + 8] == hash(resource)[..8]
  {
    assert resource[..|resource|] == resource;
    assert forall i: nat :: i < c.scopeCount ==>
             (ScopeAt(c, i, hash(resource)[..8]) <==> c.scopeIds[8 * i..8 * i + 8] == hash(resource)[..8]);
    var id := hash(resource)[..8];
    if i: nat :| i < c.scopeCount && c.scopeIds[8 * i..8 * i + 8] == id {
      assert ScopeAt(c, i, id);
    }
  }

  method CertCarriesScope(c: Cert, scope: bytes) returns (r: bool)
    ensures r <==> Carries(c, scope)
  {
    for i := 0 to c.scopeCount
      invariant forall k: nat :: k < i ==> !ScopeAt(c, k, scope)
    {
      var off := i * LEN_SCOPE_ID;
      if off + LEN_SCOPE_ID <= |c.scopeIds| {
        if c.scopeIds[off..off + LEN_SCOPE_ID] == scope {
          assert ScopeAt(c, i, scope);
          return true;
        }
      }
    }
    return false;
  }

  // Walk from the full name towards the root, stripping one segment at a time.
  method ScopeCoversResource(c: Cert, hash: Hash, resource: bytes) returns (r: bool)
    ensures r <==> Covers(c, hash, resource)
  {
    var end := |resource|;
    while end > 0
      invariant end <= |resource|
      invariant end > 0 ==> IsAncestorName(resource, end)
      invariant forall n: nat :: end < n && IsAncestorName(resource, n) ==> !ListsPrefix(c, hash, resource, n)
      decreases end
    {
      var carried := CertCarriesScope(c, ScopeId(hash, resource[..end]));
      if carried {
        assert ListsPrefix(c, hash, resource, end);
        return true;
      }
      var newEnd := end;
      while newEnd > 0 && resource[newEnd - 1] != SLASH
        invariant 0 <= newEnd <= end
        invariant forall n: nat :: newEnd <= n < end ==> resource[n] != SLASH
        decreases newEnd
      {
        newEnd := newEnd - 1;
      }
      if newEnd == 0 {
        break;
      }
      end := newEnd - 1;
    }
    return false;
  }
}
