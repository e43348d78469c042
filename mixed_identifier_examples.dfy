/**
 The end-to-end scenarios for the no-mixed-identifier policy: a name held by a
 plain record and a proposed weighted record of the same name, or the reverse,
 with and without a delete of the record already there.
 */
module MixedIdentifierExamples {
  import opened Endpoints
  import opened MixedIdentifierPolicy

  const FooV1: Endpoint := Endpoint("foo", "", ["v1"], map[])
  const FooV2: Endpoint := Endpoint("foo", "", ["v2"], map[])
  const Bar: Endpoint := Endpoint("bar", "", ["v1"], map[])
  const Baz: Endpoint := Endpoint("baz", "", ["v1"], map[])
  const Identified: Endpoint := Endpoint("multi-cluster", "identifier", ["identified"], map[])
  const NonIdentified: Endpoint := Endpoint("multi-cluster", "", ["non-identified"], map[])

  /** The proposed changes of every scenario, differing in Create, Delete and Current. */
  function Scenario(create: seq<Endpoint>, delete: seq<Endpoint>, current: seq<Endpoint>): Changes
  {
    Changes(Create := create, UpdateOld := [FooV1], UpdateNew := [FooV2], Delete := delete, Current := current)
  }

  /** Without current records, the creation passes. */
  lemma NothingCurrentPasses()
    ensures Filtered(Scenario([Baz], [Bar], [])) == [Baz]
  {
    EmptyCurrentKeepsCreates(Scenario([Baz], [Bar], []));
  }

  /** A current plain record blocks a weighted creation of its name. */
  lemma PlainCurrentBlocksWeighted()
    ensures Filtered(Scenario([Identified], [Bar], [NonIdentified])) == []
  {
    var c := Scenario([Identified], [Bar], [NonIdentified]);
    CurrentBlocksOppositeCreate(c, Identified, NonIdentified);
    FilteredKeepsExactly(c, Identified);
    assert [Identified][..0] == [];
    assert Filtered(c) == KeptCreates([Identified], Known(c, true), Known(c, false));
  }

  /** Deleting that plain record lets the weighted creation through. */
  lemma DeletedPlainAdmitsWeighted()
    ensures Filtered(Scenario([Identified], [NonIdentified], [NonIdentified])) == [Identified]
  {
    var c := Scenario([Identified], [NonIdentified], [NonIdentified]);
    OwnerlessDeleteUnblocksCreate(c, Identified, NonIdentified);
    KeptCreatesAll(c.Create, Known(c, true), Known(c, false));
  }

  /** A current weighted record blocks a plain creation of its name. */
  lemma WeightedCurrentBlocksPlain()
    ensures Filtered(Scenario([NonIdentified], [Bar], [Identified])) == []
  {
    var c := Scenario([NonIdentified], [Bar], [Identified]);
    CurrentBlocksOppositeCreate(c, NonIdentified, Identified);
    FilteredKeepsExactly(c, NonIdentified);
    assert [NonIdentified][..0] == [];
    assert Filtered(c) == KeptCreates([NonIdentified], Known(c, true), Known(c, false));
  }

  /** Deleting that weighted record lets the plain creation through. */
  lemma DeletedWeightedAdmitsPlain()
    ensures Filtered(Scenario([NonIdentified], [Identified], [Identified])) == [NonIdentified]
  {
    var c := Scenario([NonIdentified], [Identified], [Identified]);
    OwnerlessDeleteUnblocksCreate(c, NonIdentified, Identified);
    KeptCreatesAll(c.Create, Known(c, true), Known(c, false));
  }
}
