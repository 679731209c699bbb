/** Rows looked up by their own ids, for the concrete states. */
module RelationIds {
  import opened RelationSchema
  import opened Wrappers
  import opened OwnershipForest
  import opened RelationGraph
  import opened RelationScan
  function IdRow(id: int, links: map<nat, seq<Option<Value>>>): Row {
    Row(map["Id" := IntValue(id)], links, map[])
  }

  /** Every row carries its own id. */
  predicate Identified(g: Graph) {
    forall k :: k in g ==> "Id" in g[k].scalars && g[k].scalars["Id"] == IntValue(k.id)
  }

  lemma {:induction false} IdResolves(g: Graph, typ: string, id: int)
    requires Identified(g)
    ensures Resolve(g, TargetKey(typ, "Id", IntValue(id))) == if NodeKey(typ, id) in g then Found(NodeKey(typ, id)) else Missing
  {
    var lk, k := TargetKey(typ, "Id", IntValue(id)), NodeKey(typ, id);
    forall j ensures Bears(g, j, lk) <==> j in g && j == k {
    }
    hide Bears;
    assert k in g ==> Sole(g, k, lk);
  }

  /** A to-one field that holds the id of a live row reaches it, legally. */
  lemma {:induction false} ToOneReaches(sc: Schema, g: Graph, fk: FieldKey, id: int)
    requires HasField(sc, g, fk) && Identified(g) && !SpecOf(sc, fk).many && SpecOf(sc, fk).matchField == "Id"
    requires LinkAt(g[fk.holder], fk.field) == [Some(IntValue(id))] && NodeKey(SpecOf(sc, fk).target, id) in g
    ensures TargetsAt(sc, g, fk) == [NodeKey(SpecOf(sc, fk).target, id)] && FieldLegal(sc, g, fk)
    ensures forall lk, i :: !DanglesAt(sc, g, fk, lk, i)
  {
    var spec, refs := SpecOf(sc, fk), RefsAt(sc, g, fk);
    IdResolves(g, spec.target, id);
    assert refs == [Some(IntValue(id))] && refs[..0] == [] && refs[..1] == refs;
    TargetsStep(g, spec, refs, 0);
    hide Resolve;
  }

  lemma {:induction false} LegalBy(sc: Schema, g: Graph, fields: Fields, owners: Owners)
    requires LegalRefs(sc, g) && FieldsExact(sc, g, fields) && ForestLegal(sc, fields, owners)
    ensures Legal(sc, g)
  {
    hide LegalRefs, FieldsExact, ForestLegal;
  }

  lemma {:induction false} NoneCyclic()
    ensures Acyclic(map[])
  {
    AcyclicIsRooted(map[]);
  }
}
