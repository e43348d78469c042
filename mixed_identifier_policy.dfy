/**
 The no-mixed-identifier policy: a DNS name must not end up holding both
 records with a set identifier ("weighted") and records without one
 ("unweighted"). The policy indexes the current records by name, lets the
 proposed deletes clear index entries, and drops every proposed creation whose
 name is still held by a record of the other category.
 */
module MixedIdentifierPolicy {
  import opened Endpoints
  import opened Subsequences

  /** The index of the current records of one category: each DNS name maps to
      the last record of that category carrying it. */
  function Index(current: seq<Endpoint>, weighted: bool): map<string, Endpoint>
  {
    if current == [] then map[]
    else
      var known := Index(current[..|current| - 1], weighted);
      var ep := current[|current| - 1];
      if IsWeighted(ep) == weighted then known[ep.DNSName := ep] else known
  }

  /** The delete loop on one category's index: a candidate of that category
      removes the entry under its name when it has the same owner. */
  function Neutralise(known: map<string, Endpoint>, deletes: seq<Endpoint>, weighted: bool): map<string, Endpoint>
  {
    if deletes == [] then known
    else
      var rest := Neutralise(known, deletes[..|deletes| - 1], weighted);
      var candidate := deletes[|deletes| - 1];
      if IsWeighted(candidate) == weighted && candidate.DNSName in rest && SameOwner(candidate, rest[candidate.DNSName])
      then rest - {candidate.DNSName}
      else rest
  }

  /** The index of one category once the proposed deletes have been taken into account. */
  function Known(changes: Changes, weighted: bool): map<string, Endpoint>
  {
    Neutralise(Index(changes.Current, weighted), changes.Delete, weighted)
  }

  /** A creation is kept when no record of the opposite category is known under its name. */
  predicate Admissible(ep: Endpoint, knownWeighted: map<string, Endpoint>, knownUnweighted: map<string, Endpoint>)
  {
    if IsWeighted(ep) then ep.DNSName !in knownUnweighted else ep.DNSName !in knownWeighted
  }

  /** The admissible creations, in their original order. */
  function KeptCreates(creates: seq<Endpoint>, knownWeighted: map<string, Endpoint>, knownUnweighted: map<string, Endpoint>): seq<Endpoint>
  {
    if creates == [] then []
    else
      var kept := KeptCreates(creates[..|creates| - 1], knownWeighted, knownUnweighted);
      var ep := creates[|creates| - 1];
      if Admissible(ep, knownWeighted, knownUnweighted) then kept + [ep] else kept
  }

  /** The Create list the policy returns for a change set. */
  function Filtered(changes: Changes): seq<Endpoint>
  {
    KeptCreates(changes.Create, Known(changes, true), Known(changes, false))
  }

  /** NoMixedIdentifierPolicy.Apply. Only Create changes; skipped counts the
      increments of the conflict-skip counter, one per dropped creation. */
  method Apply(changes: Changes) returns (r: Changes, skipped: nat)
    ensures r.Create == Filtered(changes)
    ensures r.UpdateOld == changes.UpdateOld && r.UpdateNew == changes.UpdateNew
    ensures r.Delete == changes.Delete && r.Current == changes.Current
    ensures skipped == |changes.Create| - |r.Create|
  {
    var knownWeighted: map<string, Endpoint> := map[];
    var knownUnweighted: map<string, Endpoint> := map[];
    var i := 0;
    while i < |changes.Current|
      invariant 0 <= i <= |changes.Current|
      invariant knownWeighted == Index(changes.Current[..i], true)
      invariant knownUnweighted == Index(changes.Current[..i], false)
    {
      var ep := changes.Current[i];
      assert changes.Current[..i + 1][..i] == changes.Current[..i];
      if ep.SetIdentifier == "" {
        knownUnweighted := knownUnweighted[ep.DNSName := ep];
      } else {
        knownWeighted := knownWeighted[ep.DNSName := ep];
      }
      i := i + 1;
    }
    assert changes.Current[..i] == changes.Current;

    i := 0;
    while i < |changes.Delete|
      invariant 0 <= i <= |changes.Delete|
      invariant knownWeighted == Neutralise(Index(changes.Current, true), changes.Delete[..i], true)
      invariant knownUnweighted == Neutralise(Index(changes.Current, false), changes.Delete[..i], false)
    {
      var candidate := changes.Delete[i];
      assert changes.Delete[..i + 1][..i] == changes.Delete[..i];
      if candidate.SetIdentifier == "" {
        if candidate.DNSName in knownUnweighted && SameOwner(candidate, knownUnweighted[candidate.DNSName]) {
          knownUnweighted := knownUnweighted - {candidate.DNSName};
        }
      } else {
        if candidate.DNSName in knownWeighted && SameOwner(candidate, knownWeighted[candidate.DNSName]) {
          knownWeighted := knownWeighted - {candidate.DNSName};
        }
      }
      i := i + 1;
    }
    assert changes.Delete[..i] == changes.Delete;

    var create: seq<Endpoint> := [];
    skipped := 0;
    i := 0;
    while i < |changes.Create|
      invariant 0 <= i <= |changes.Create|
      invariant create == KeptCreates(changes.Create[..i], knownWeighted, knownUnweighted)
      invariant skipped + |create| == i
    {
      var ep := changes.Create[i];
      assert changes.Create[..i + 1][..i] == changes.Create[..i];
      if ep.SetIdentifier == "" {
        if ep.DNSName !in knownWeighted {
          create := create + [ep];
        } else {
          skipped := skipped + 1;
        }
      } else {
        if ep.DNSName !in knownUnweighted {
          create := create + [ep];
        } else {
          skipped := skipped + 1;
        }
      }
      i := i + 1;
    }
    assert changes.Create[..i] == changes.Create;

    r := Changes(
      Create := create,
      UpdateOld := changes.UpdateOld,
      UpdateNew := changes.UpdateNew,
      Delete := changes.Delete,
      Current := changes.Current
    );
  }

  // ---------------------------------------------------------------------------
  // The index of current records

  /** The index holds exactly the names of the current records of its category. */
  lemma {:induction false} IndexKeys(current: seq<Endpoint>, weighted: bool)
    ensures Index(current, weighted).Keys == set ep | ep in current && IsWeighted(ep) == weighted :: ep.DNSName
  {
    if current != [] {
      var init := current[..|current| - 1];
      IndexKeys(init, weighted);
      assert current == init + [current[|current| - 1]];
    }
  }

  /** Every indexed record is a current record of the index's category, stored under its own name. */
  lemma {:induction false} IndexEntries(current: seq<Endpoint>, weighted: bool, name: string)
    requires name in Index(current, weighted)
    ensures Index(current, weighted)[name] in current
    ensures Index(current, weighted)[name].DNSName == name
    ensures IsWeighted(Index(current, weighted)[name]) == weighted
  {
    var init := current[..|current| - 1];
    var ep := current[|current| - 1];
    assert current == init + [ep];
    if !(IsWeighted(ep) == weighted && ep.DNSName == name) {
      IndexEntries(init, weighted, name);
    }
  }

  /** When a name repeats within a category, the last current record wins. */
  lemma {:induction false} IndexLastWins(current: seq<Endpoint>, weighted: bool, i: nat)
    requires i < |current| && IsWeighted(current[i]) == weighted
    requires forall j :: i < j < |current| ==>
      current[j].DNSName != current[i].DNSName || IsWeighted(current[j]) != weighted
    ensures current[i].DNSName in Index(current, weighted)
    ensures Index(current, weighted)[current[i].DNSName] == current[i]
  {
    var init := current[..|current| - 1];
    if i < |current| - 1 {
      IndexLastWins(init, weighted, i);
    }
  }

  // ---------------------------------------------------------------------------
  // Neutralisation by deletes

  /** Some delete candidate of the given category, under the given name, has
      the same owner as the indexed record ep. */
  predicate Cancelled(deletes: seq<Endpoint>, weighted: bool, name: string, ep: Endpoint)
  {
    exists d :: d in deletes && IsWeighted(d) == weighted && d.DNSName == name && SameOwner(d, ep)
  }

  /** Deletes only remove entries, never change one; an entry goes exactly when
      a same-category, same-name, same-owner delete candidate exists. The order
      of the deletes does not matter. */
  lemma {:induction false} NeutraliseSpec(known: map<string, Endpoint>, deletes: seq<Endpoint>, weighted: bool, name: string)
    ensures name in Neutralise(known, deletes, weighted) <==>
      name in known && !Cancelled(deletes, weighted, name, known[name])
    ensures name in Neutralise(known, deletes, weighted) ==>
      Neutralise(known, deletes, weighted)[name] == known[name]
  {
    if deletes != [] {
      var init := deletes[..|deletes| - 1];
      var candidate := deletes[|deletes| - 1];
      assert deletes == init + [candidate];
      NeutraliseSpec(known, init, weighted, name);
      if name in known {
        if Cancelled(init, weighted, name, known[name]) {
          var d :| d in init && IsWeighted(d) == weighted && d.DNSName == name && SameOwner(d, known[name]);
          assert d in deletes;
        }
        if Cancelled(deletes, weighted, name, known[name]) && !Cancelled(init, weighted, name, known[name]) {
          var d :| d in deletes && IsWeighted(d) == weighted && d.DNSName == name && SameOwner(d, known[name]);
          assert d == candidate;
        }
      }
    }
  }

  /** A name stays known exactly when a current record of that category holds
      it and no delete candidate cancels the record the index retained. */
  lemma KnownSpec(changes: Changes, weighted: bool, name: string)
    ensures name in Known(changes, weighted) <==>
      name in Index(changes.Current, weighted) &&
      !Cancelled(changes.Delete, weighted, name, Index(changes.Current, weighted)[name])
  {
    NeutraliseSpec(Index(changes.Current, weighted), changes.Delete, weighted, name);
  }

  // ---------------------------------------------------------------------------
  // The filter on creations

  /** A creation survives iff it was proposed and no record of the opposite category is still known under its name. */
  lemma {:induction false} KeptCreatesExactly(creates: seq<Endpoint>, knownWeighted: map<string, Endpoint>, knownUnweighted: map<string, Endpoint>, ep: Endpoint)
    ensures ep in KeptCreates(creates, knownWeighted, knownUnweighted) <==>
      ep in creates && Admissible(ep, knownWeighted, knownUnweighted)
  {
    if creates != [] {
      var init := creates[..|creates| - 1];
      KeptCreatesExactly(init, knownWeighted, knownUnweighted, ep);
      assert creates == init + [creates[|creates| - 1]];
    }
  }

  /** An admissible creation keeps all its copies; every other one loses them all. */
  lemma {:induction false} KeptCreatesMultiplicity(creates: seq<Endpoint>, knownWeighted: map<string, Endpoint>, knownUnweighted: map<string, Endpoint>, ep: Endpoint)
    ensures multiset(KeptCreates(creates, knownWeighted, knownUnweighted))[ep] ==
      (if Admissible(ep, knownWeighted, knownUnweighted) then multiset(creates)[ep] else 0)
  {
    if creates != [] {
      var init := creates[..|creates| - 1];
      KeptCreatesMultiplicity(init, knownWeighted, knownUnweighted, ep);
      assert creates == init + [creates[|creates| - 1]];
    }
  }

  /** The surviving creations keep their original relative order. */
  lemma {:induction false} KeptCreatesIsSubsequence(creates: seq<Endpoint>, knownWeighted: map<string, Endpoint>, knownUnweighted: map<string, Endpoint>)
    ensures IsSubsequence(KeptCreates(creates, knownWeighted, knownUnweighted), creates)
  {
    if creates != [] {
      var init := creates[..|creates| - 1];
      KeptCreatesIsSubsequence(init, knownWeighted, knownUnweighted);
      var r := KeptCreates(creates, knownWeighted, knownUnweighted);
      if Admissible(creates[|creates| - 1], knownWeighted, knownUnweighted) {
        assert r[..|r| - 1] == KeptCreates(init, knownWeighted, knownUnweighted);
      }
    }
  }

  /** When every creation is admissible, none is dropped. */
  lemma {:induction false} KeptCreatesAll(creates: seq<Endpoint>, knownWeighted: map<string, Endpoint>, knownUnweighted: map<string, Endpoint>)
    requires forall i :: 0 <= i < |creates| ==> Admissible(creates[i], knownWeighted, knownUnweighted)
    ensures KeptCreates(creates, knownWeighted, knownUnweighted) == creates
  {
    if creates != [] {
      var init, ep := creates[..|creates| - 1], creates[|creates| - 1];
      KeptCreatesAll(init, knownWeighted, knownUnweighted);
      assert Admissible(ep, knownWeighted, knownUnweighted);
      assert KeptCreates(creates, knownWeighted, knownUnweighted) == init + [ep];
    }
  }

  // ---------------------------------------------------------------------------
  // Properties of the policy as a whole

  /** The output Create is an order-preserving selection of the input Create. */
  lemma FilteredIsSubsequence(changes: Changes)
    ensures IsSubsequence(Filtered(changes), changes.Create)
    ensures |Filtered(changes)| <= |changes.Create|
  {
    KeptCreatesIsSubsequence(changes.Create, Known(changes, true), Known(changes, false));
    SubsequenceBounds(Filtered(changes), changes.Create);
  }

  /** A creation is kept iff it was proposed and, after the deletes, no current
      record of the opposite category holds its name. */
  lemma FilteredKeepsExactly(changes: Changes, ep: Endpoint)
    ensures ep in Filtered(changes) <==>
      ep in changes.Create && ep.DNSName !in Known(changes, !IsWeighted(ep))
    ensures multiset(Filtered(changes))[ep] ==
      (if ep.DNSName !in Known(changes, !IsWeighted(ep)) then multiset(changes.Create)[ep] else 0)
  {
    KeptCreatesExactly(changes.Create, Known(changes, true), Known(changes, false), ep);
    KeptCreatesMultiplicity(changes.Create, Known(changes, true), Known(changes, false), ep);
  }

  /** With no current records, every creation passes. */
  lemma EmptyCurrentKeepsCreates(changes: Changes)
    requires changes.Current == []
    ensures Filtered(changes) == changes.Create
  {
    forall name ensures name !in Known(changes, true) && name !in Known(changes, false) {
      NeutraliseSpec(map[], changes.Delete, true, name);
      NeutraliseSpec(map[], changes.Delete, false, name);
    }
    KeptCreatesAll(changes.Create, Known(changes, true), Known(changes, false));
  }

  /** When no current record shares a name with a creation of the opposite
      category, every creation passes. */
  lemma NoOverlapKeepsCreates(changes: Changes)
    requires forall i, j :: 0 <= i < |changes.Create| && 0 <= j < |changes.Current| ==>
      changes.Create[i].DNSName != changes.Current[j].DNSName ||
      IsWeighted(changes.Create[i]) == IsWeighted(changes.Current[j])
    ensures Filtered(changes) == changes.Create
  {
    forall i | 0 <= i < |changes.Create|
      ensures Admissible(changes.Create[i], Known(changes, true), Known(changes, false))
    {
      var ep := changes.Create[i];
      var w := !IsWeighted(ep);
      IndexKeys(changes.Current, w);
      KnownSpec(changes, w, ep.DNSName);
      assert ep.DNSName !in Index(changes.Current, w);
    }
    KeptCreatesAll(changes.Create, Known(changes, true), Known(changes, false));
  }

  /** A current record of the opposite category blocks a creation of the same
      name when no delete of that category and name is proposed. */
  lemma CurrentBlocksOppositeCreate(changes: Changes, ep: Endpoint, c: Endpoint)
    requires c in changes.Current && c.DNSName == ep.DNSName && IsWeighted(c) != IsWeighted(ep)
    requires forall d :: d in changes.Delete ==> d.DNSName != ep.DNSName || IsWeighted(d) == IsWeighted(ep)
    ensures ep !in Filtered(changes)
  {
    var w := IsWeighted(c);
    IndexKeys(changes.Current, w);
    assert ep.DNSName in Index(changes.Current, w);
    KnownSpec(changes, w, ep.DNSName);
    FilteredKeepsExactly(changes, ep);
  }

  /** A delete without an owner label, of the opposite category and the same
      name, clears the way for a creation. */
  lemma OwnerlessDeleteUnblocksCreate(changes: Changes, ep: Endpoint, d: Endpoint)
    requires ep in changes.Create
    requires d in changes.Delete && d.DNSName == ep.DNSName && IsWeighted(d) != IsWeighted(ep)
    requires OwnerLabelKey !in d.Labels
    ensures ep in Filtered(changes)
  {
    var w := IsWeighted(d);
    KnownSpec(changes, w, ep.DNSName);
    if ep.DNSName in Index(changes.Current, w) {
      assert Cancelled(changes.Delete, w, ep.DNSName, Index(changes.Current, w)[ep.DNSName]);
    }
    FilteredKeepsExactly(changes, ep);
  }

  /** A delete whose owner label differs from that of every current record of
      that category and name does not clear the conflict: the creation is still dropped. */
  lemma OwnerMismatchKeepsBlocking(changes: Changes, ep: Endpoint, owner: string)
    requires exists c :: c in changes.Current && c.DNSName == ep.DNSName && IsWeighted(c) != IsWeighted(ep)
    requires forall c :: c in changes.Current && c.DNSName == ep.DNSName && IsWeighted(c) != IsWeighted(ep) ==>
      OwnedBy(c, owner)
    requires forall d :: d in changes.Delete && d.DNSName == ep.DNSName && IsWeighted(d) != IsWeighted(ep) ==>
      OwnerLabelKey in d.Labels && d.Labels[OwnerLabelKey] != owner
    ensures ep !in Filtered(changes)
  {
    var w := !IsWeighted(ep);
    var c :| c in changes.Current && c.DNSName == ep.DNSName && IsWeighted(c) != IsWeighted(ep);
    IndexKeys(changes.Current, w);
    assert ep.DNSName in Index(changes.Current, w);
    IndexEntries(changes.Current, w, ep.DNSName);
    KnownSpec(changes, w, ep.DNSName);
    FilteredKeepsExactly(changes, ep);
  }

  /** Applying the policy to its own output drops nothing more. */
  lemma FilteredIdempotent(changes: Changes)
    ensures Filtered(changes.(Create := Filtered(changes))) == Filtered(changes)
  {
    var kw, ku := Known(changes, true), Known(changes, false);
    var r := Filtered(changes);
    forall i | 0 <= i < |r|
      ensures Admissible(r[i], kw, ku)
    {
      KeptCreatesExactly(changes.Create, kw, ku, r[i]);
    }
    KeptCreatesAll(r, kw, ku);
  }
}
