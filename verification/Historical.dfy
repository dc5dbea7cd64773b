/** Audit without a clock: an envelope is judged by its causal position relative to its
    sender's anchor and revocation. */
module Historical {
  import opened Base
  import opened Dag

  datatype HistoricalError =
    | NotDescendantOfAnchor | DescendantOfRevocation | AnchorNotFound
    | MalformedKey | BadCaSignature | UntrustedCa | CertExpired | CertTooLongLived
    | RoleAgentApprover | RoleAgentExecutor | RoleApproverExecutor | ApproverNoQuorum

  // What the audit looks up about a sender: the verdict on its certificate and its two positions.
  datatype Subject = Subject(
    chain: Result<(), HistoricalError>, anchor: Option<Node>, revocation: Option<Node>)

  ghost function Verdict(g: Graph, env: Node, s: Subject): Result<(), HistoricalError> {
    if s.chain.Err? then s.chain
    else if s.anchor.None? then Err(AnchorNotFound)
    else if !g.Ancestor(s.anchor.value, env) then Err(NotDescendantOfAnchor)
    else if s.revocation.Some? && g.Ancestor(s.revocation.value, env) then Err(DescendantOfRevocation)
    else Ok(())
  }

  method HistoricalValidity(dag: Dag, env: Node, sender: bytes, cert: bytes,
      validateCert: bytes -> Result<(), HistoricalError>,
      getAnchor: bytes -> Option<Node>, getRevokeHash: bytes -> Option<Node>)
    returns (r: Result<(), HistoricalError>)
    requires dag.Valid()
    modifies dag.visited, dag.queue
    ensures dag.Valid()
    ensures r == Verdict(dag.g, env, Subject(validateCert(cert), getAnchor(sender), getRevokeHash(sender)))
  {
    var _ :- validateCert(cert);
    var anchor := getAnchor(sender);
    if anchor.None? {
      return Err(AnchorNotFound);
    }
    var under := dag.IsAncestor(anchor.value, env);
    if !under {
      return Err(NotDescendantOfAnchor);
    }
    var revocation := getRevokeHash(sender);
    if revocation.Some? {
      var revoked := dag.IsAncestor(revocation.value, env);
      if revoked {
        return Err(DescendantOfRevocation);
      }
    }
    return Ok(());
  }

  // An envelope is accepted exactly when its sender's chain holds, it descends from the sender's anchor, and not from
  // its revocation if there is one.
  lemma AcceptedIff(g: Graph, env: Node, s: Subject)
    ensures Verdict(g, env, s).Ok? <==>
              && s.chain.Ok?
              && s.anchor.Some? && g.Ancestor(s.anchor.value, env)
              && (s.revocation.Some? ==> !g.Ancestor(s.revocation.value, env))
  {
  }

  // A rejection for descending from the revocation reaches every descendant.
  lemma RejectionInherited(g: Graph, env: Node, descendant: Node, s: Subject)
    requires g.Valid() && Verdict(g, env, s) == Err(DescendantOfRevocation)
    requires g.Ancestor(env, descendant)
    ensures Verdict(g, descendant, s) == Err(DescendantOfRevocation)
  {
    if s.chain.Ok? {
      AncestorTransitive(g, s.anchor.value, env, descendant);
      AncestorTransitive(g, s.revocation.value, env, descendant);
    }
  }

  // An envelope between the anchor and an accepted envelope is accepted too.
  lemma AcceptanceReachesBack(g: Graph, env: Node, between: Node, s: Subject)
    requires g.Valid() && Verdict(g, env, s) == Ok(())
    requires g.Ancestor(s.anchor.value, between) && g.Ancestor(between, env)
    ensures Verdict(g, between, s) == Ok(())
  {
    if s.revocation.Some? && g.Ancestor(s.revocation.value, between) {
      AncestorTransitive(g, s.revocation.value, between, env);
    }
  }

  // Inserting further edges never lifts such a rejection, and takes an acceptance away only by
  // putting the envelope below the revocation.
  lemma VerdictUnderGrowth(g: Graph, edges: seq<(Node, Node)>, env: Node, s: Subject)
    requires g.Valid()
    ensures var later := Verdict(InsertAll(g, edges), env, s);
            && (Verdict(g, env, s) == Err(DescendantOfRevocation) ==> later == Err(DescendantOfRevocation))
            && (Verdict(g, env, s) == Ok(()) ==> later == Ok(()) || later == Err(DescendantOfRevocation))
  {
    if s.anchor.Some? && g.Ancestor(s.anchor.value, env) {
      AncestryGrows(g, edges, s.anchor.value, env);
    }
    if s.revocation.Some? && g.Ancestor(s.revocation.value, env) {
      AncestryGrows(g, edges, s.revocation.value, env);
    }
  }
}
