/**
 The data the change-set policies work on: DNS endpoints, the bundle of
 proposed changes, and the ownership label that ties an endpoint to one
 controller instance.
 */
module Endpoints {

  /** The label key under which an endpoint records the controller that owns it.
      "owner" is the value the endpoint package gives it; no property proved
      here depends on that value. */
  const OwnerLabelKey: string := "owner"

  /** A DNS record. It is identified by (DNSName, SetIdentifier); an empty
      SetIdentifier marks a plain ("unweighted") record, a non-empty one a
      member of a multi-value ("weighted") record set. */
  datatype Endpoint = Endpoint(
    DNSName: string,
    SetIdentifier: string,
    Targets: seq<string>,
    Labels: map<string, string>
  )

  /** A proposed change set together with the currently observed records. */
  datatype Changes = Changes(
    Create: seq<Endpoint>,
    UpdateOld: seq<Endpoint>,
    UpdateNew: seq<Endpoint>,
    Delete: seq<Endpoint>,
    Current: seq<Endpoint>
  )

  /** The identifier-presence category of an endpoint. */
  predicate IsWeighted(ep: Endpoint)
  {
    ep.SetIdentifier != ""
  }

  /** True when ep carries the owner label and its value is ownerID. */
  predicate OwnedBy(ep: Endpoint, ownerID: string)
  {
    OwnerLabelKey in ep.Labels && ep.Labels[OwnerLabelKey] == ownerID
  }

  /** The owner comparison used when a delete candidate neutralises an indexed
      current record. It is owner-authoritative and asymmetric: a candidate
      without an owner label matches any record; a labelled candidate matches
      only a record carrying the same label value. */
  predicate SameOwner(candidate: Endpoint, indexed: Endpoint)
    ensures OwnerLabelKey !in candidate.Labels ==> SameOwner(candidate, indexed)
    ensures forall o :: OwnedBy(candidate, o) ==> (SameOwner(candidate, indexed) <==> OwnedBy(indexed, o))
  {
    OwnerLabelKey in candidate.Labels ==>
      OwnerLabelKey in indexed.Labels && candidate.Labels[OwnerLabelKey] == indexed.Labels[OwnerLabelKey]
  }

  /** SameOwner is exactly "the candidate has no owner label, or both share it". */
  lemma SameOwnerCases(candidate: Endpoint, indexed: Endpoint)
    ensures SameOwner(candidate, indexed) <==>
      (OwnerLabelKey !in candidate.Labels ||
       exists o :: OwnedBy(candidate, o) && OwnedBy(indexed, o))
  {
    if OwnerLabelKey in candidate.Labels && SameOwner(candidate, indexed) {
      var o := candidate.Labels[OwnerLabelKey];
      assert OwnedBy(candidate, o) && OwnedBy(indexed, o);
    }
  }

  /** The comparison is not symmetric: an ownerless record deleted against an
      owned one matches, the other way round it does not. */
  lemma SameOwnerIsAsymmetric()
    ensures exists a: Endpoint, b: Endpoint :: SameOwner(a, b) && !SameOwner(b, a)
  {
    var a := Endpoint("x", "", [], map[]);
    var b := Endpoint("x", "", [], map[OwnerLabelKey := "abc"]);
    assert SameOwner(a, b) && !SameOwner(b, a);
  }
}
