/**
 The ownership policy: a controller instance may update or delete only the
 records that carry its own owner label; creations always pass.
 */
module OwnedRecordsPolicy {
  import opened Endpoints
  import opened Subsequences

  /** The endpoints of eps owned by ownerID, in their original order. */
  function Owned(ownerID: string, eps: seq<Endpoint>): seq<Endpoint>
  {
    if eps == [] then []
    else
      var kept := Owned(ownerID, eps[..|eps| - 1]);
      var ep := eps[|eps| - 1];
      if OwnedBy(ep, ownerID) then kept + [ep] else kept
  }

  /** The loop of filterOwnedRecords: appends each owned endpoint to the result. */
  method FilterOwnedRecords(ownerID: string, eps: seq<Endpoint>) returns (filtered: seq<Endpoint>)
    ensures filtered == Owned(ownerID, eps)
  {
    filtered := [];
    var i := 0;
    while i < |eps|
      invariant 0 <= i <= |eps|
      invariant filtered == Owned(ownerID, eps[..i])
    {
      var ep := eps[i];
      assert eps[..i + 1][..i] == eps[..i];
      if OwnerLabelKey !in ep.Labels || ep.Labels[OwnerLabelKey] != ownerID {
        i := i + 1;
        continue;
      }
      filtered := filtered + [ep];
      i := i + 1;
    }
    assert eps[..i] == eps;
  }

  /** An endpoint survives the filter iff it was in the input and is owned by ownerID. */
  lemma {:induction false} OwnedKeepsExactlyOwned(ownerID: string, eps: seq<Endpoint>, ep: Endpoint)
    ensures ep in Owned(ownerID, eps) <==> ep in eps && OwnedBy(ep, ownerID)
  {
    if eps != [] {
      var init := eps[..|eps| - 1];
      OwnedKeepsExactlyOwned(ownerID, init, ep);
      assert eps == init + [eps[|eps| - 1]];
    }
  }

  /** Every owned endpoint keeps all its copies; every other one loses them all. */
  lemma {:induction false} OwnedMultiplicity(ownerID: string, eps: seq<Endpoint>, ep: Endpoint)
    ensures multiset(Owned(ownerID, eps))[ep] == if OwnedBy(ep, ownerID) then multiset(eps)[ep] else 0
  {
    if eps != [] {
      var init := eps[..|eps| - 1];
      OwnedMultiplicity(ownerID, init, ep);
      assert eps == init + [eps[|eps| - 1]];
    }
  }

  /** An endpoint without an owner label never survives the filter. */
  lemma {:induction false} UnlabelledIsDropped(ownerID: string, eps: seq<Endpoint>, ep: Endpoint)
    requires OwnerLabelKey !in ep.Labels
    ensures ep !in Owned(ownerID, eps)
  {
    OwnedKeepsExactlyOwned(ownerID, eps, ep);
  }

  /** The filter keeps the survivors in their original relative order. */
  lemma {:induction false} OwnedIsSubsequence(ownerID: string, eps: seq<Endpoint>)
    ensures IsSubsequence(Owned(ownerID, eps), eps)
  {
    if eps != [] {
      var init := eps[..|eps| - 1];
      OwnedIsSubsequence(ownerID, init);
      var r := Owned(ownerID, eps);
      if OwnedBy(eps[|eps| - 1], ownerID) {
        assert r[..|r| - 1] == Owned(ownerID, init);
      }
    }
  }

  /** When every endpoint is owned by ownerID nothing is dropped. */
  lemma {:induction false} OwnedAllUnchanged(ownerID: string, eps: seq<Endpoint>)
    requires forall i :: 0 <= i < |eps| ==> OwnedBy(eps[i], ownerID)
    ensures Owned(ownerID, eps) == eps
  {
    if eps != [] {
      var init := eps[..|eps| - 1];
      OwnedAllUnchanged(ownerID, init);
      assert eps == init + [eps[|eps| - 1]];
    }
  }

  /** Filtering twice is filtering once. */
  lemma {:induction false} OwnedIdempotent(ownerID: string, eps: seq<Endpoint>)
    ensures Owned(ownerID, Owned(ownerID, eps)) == Owned(ownerID, eps)
  {
    var r := Owned(ownerID, eps);
    forall i | 0 <= i < |r|
      ensures OwnedBy(r[i], ownerID)
    {
      OwnedKeepsExactlyOwned(ownerID, eps, r[i]);
    }
    OwnedAllUnchanged(ownerID, r);
  }

  /** r is what the ownership filter leaves of s: an order-preserving selection
      that holds exactly the endpoints of s owned by ownerID, each with all its copies. */
  ghost predicate OwnedSelection(ownerID: string, r: seq<Endpoint>, s: seq<Endpoint>)
  {
    && IsSubsequence(r, s)
    && (forall ep :: ep in r <==> ep in s && OwnedBy(ep, ownerID))
    && (forall ep :: multiset(r)[ep] == if OwnedBy(ep, ownerID) then multiset(s)[ep] else 0)
  }

  /** Owned(ownerID, s) is the ownership filter's selection of s. */
  lemma {:induction false} OwnedIsOwnedSelection(ownerID: string, s: seq<Endpoint>)
    ensures OwnedSelection(ownerID, Owned(ownerID, s), s)
  {
    OwnedIsSubsequence(ownerID, s);
    forall ep
      ensures ep in Owned(ownerID, s) <==> ep in s && OwnedBy(ep, ownerID)
      ensures multiset(Owned(ownerID, s))[ep] == if OwnedBy(ep, ownerID) then multiset(s)[ep] else 0
    {
      OwnedKeepsExactlyOwned(ownerID, s, ep);
      OwnedMultiplicity(ownerID, s, ep);
    }
  }

  /** OwnedRecordsPolicy.Apply: Create passes through, the three mutating lists
      are each filtered by ownership on their own, and Current is not carried over. */
  function Apply(ownerID: string, changes: Changes): (r: Changes)
    ensures r.Create == changes.Create
    ensures r.Current == []
    ensures OwnedSelection(ownerID, r.UpdateNew, changes.UpdateNew)
    ensures OwnedSelection(ownerID, r.UpdateOld, changes.UpdateOld)
    ensures OwnedSelection(ownerID, r.Delete, changes.Delete)
  {
    OwnedIsOwnedSelection(ownerID, changes.UpdateNew);
    OwnedIsOwnedSelection(ownerID, changes.UpdateOld);
    OwnedIsOwnedSelection(ownerID, changes.Delete);
    Changes(
      Create := changes.Create,
      UpdateOld := Owned(ownerID, changes.UpdateOld),
      UpdateNew := Owned(ownerID, changes.UpdateNew),
      Delete := Owned(ownerID, changes.Delete),
      Current := []
    )
  }

  /** Applying the policy a second time changes nothing. */
  lemma ApplyIdempotent(ownerID: string, changes: Changes)
    ensures Apply(ownerID, Apply(ownerID, changes)) == Apply(ownerID, changes)
  {
    OwnedIdempotent(ownerID, changes.UpdateOld);
    OwnedIdempotent(ownerID, changes.UpdateNew);
    OwnedIdempotent(ownerID, changes.Delete);
  }
}
