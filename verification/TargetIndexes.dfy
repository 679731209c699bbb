/** Building the lookup index of a graph: which fields to index, then every node under each of them. */
module TargetIndexes {
  import opened RelationSchema
  import opened Wrappers
  import opened RelationGraph
  import opened RelationModels

  ghost predicate FieldsOfTypes(sc: Schema, g: Graph, visited: set<string>, tf: TargetFields) {
    forall lk: TargetKey :: Searchable(tf, lk) <==> exists fk :: LooksUp(sc, g, fk, lk) && fk.holder.typ in visited
  }

  /** The scalar fields that some relation of a present type looks targets up by. */
  method RelationTargetFields(sc: Schema, nodes: Graph) returns (tf: TargetFields)
    ensures TargetFieldsExact(sc, nodes, tf)
  {
    tf := map[];
    var visited: set<string> := {};
    var rest := nodes.Keys;
    while rest != {}
      invariant rest <= nodes.Keys && FieldsOfTypes(sc, nodes, visited, tf)
      invariant forall k :: k in nodes.Keys - rest ==> k.typ in visited
      decreases |rest|
    {
      var key :| key in rest;
      rest := rest - {key};
      if key.typ !in visited {
        tf := AddTypeFields(sc, nodes, visited, tf, key);
        visited := visited + {key.typ};
      }
    }
    assert forall fk, lk :: LooksUp(sc, nodes, fk, lk) ==> fk.holder.typ in visited;
  }

  ghost predicate FieldsPartly(sc: Schema, g: Graph, visited: set<string>, typ: string, done: set<nat>, tf: TargetFields) {
    forall lk: TargetKey :: Searchable(tf, lk) <==> exists fk :: LooksUpWithin(sc, g, visited, typ, done, fk, lk)
  }

  ghost predicate LooksUpWithin(sc: Schema, g: Graph, visited: set<string>, typ: string, done: set<nat>, fk: FieldKey, lk: TargetKey) {
    LooksUp(sc, g, fk, lk) && (fk.holder.typ in visited || (fk.holder.typ == typ && fk.field in done))
  }

  predicate NamedBy(spec: Spec, lk: TargetKey) {
    lk.typ == spec.target && lk.field == spec.LookupField()
  }

  method AddTypeFields(sc: Schema, nodes: Graph, ghost visited: set<string>, tf0: TargetFields, key: NodeKey)
    returns (tf: TargetFields)
    requires key in nodes && FieldsOfTypes(sc, nodes, visited, tf0)
    ensures FieldsOfTypes(sc, nodes, visited + {key.typ}, tf)
  {
    hide FieldsPartly, FieldsOfTypes;
    tf := tf0;
    var all := FieldsOfType(sc, key.typ);
    var rest := all;
    NoFieldYet(sc, nodes, visited, key.typ, tf);
    assert all - rest == {};
    while rest != {}
      invariant rest <= all && FieldsPartly(sc, nodes, visited, key.typ, all - rest, tf)
      decreases |rest|
    {
      var field :| field in rest;
      var spec := sc[key.typ][field];
      ghost var before, done := tf, all - rest;
      var known := if spec.target in tf then tf[spec.target] else {};
      tf := tf[spec.target := known + {spec.LookupField()}];
      FieldAdded(sc, nodes, visited, key, done, field, before, tf);
      assert all - (rest - {field}) == done + {field};
      rest := rest - {field};
    }
    assert all - rest == all;
    TypeAdded(sc, nodes, visited, key, tf);
  }

  lemma {:induction false} NoFieldYet(sc: Schema, g: Graph, visited: set<string>, typ: string, tf: TargetFields)
    requires FieldsOfTypes(sc, g, visited, tf)
    ensures FieldsPartly(sc, g, visited, typ, {}, tf)
  {
    forall fk, lk
      ensures LooksUpWithin(sc, g, visited, typ, {}, fk, lk) <==> LooksUp(sc, g, fk, lk) && fk.holder.typ in visited
    {
    }
  }

  lemma {:induction false} FieldAdded(sc: Schema, g: Graph, visited: set<string>, key: NodeKey, done: set<nat>, field: nat,
                   before: TargetFields, after: TargetFields)
    requires key in g && field in FieldsOfType(sc, key.typ) && FieldsPartly(sc, g, visited, key.typ, done, before)
    requires forall lk: TargetKey :: Searchable(after, lk) <==> Searchable(before, lk) || NamedBy(sc[key.typ][field], lk)
    ensures FieldsPartly(sc, g, visited, key.typ, done + {field}, after)
  {
    var done' := done + {field};
    forall lk: TargetKey
      ensures Searchable(after, lk) <==> exists fk :: LooksUpWithin(sc, g, visited, key.typ, done', fk, lk)
    {
      if NamedBy(sc[key.typ][field], lk) {
        assert LooksUpWithin(sc, g, visited, key.typ, done', FieldKey(key, field), lk);
      }
      if fk :| LooksUpWithin(sc, g, visited, key.typ, done, fk, lk) {
        assert LooksUpWithin(sc, g, visited, key.typ, done', fk, lk);
      }
      if fk :| LooksUpWithin(sc, g, visited, key.typ, done', fk, lk) {
        assert LooksUpWithin(sc, g, visited, key.typ, done, fk, lk) || NamedBy(sc[key.typ][field], lk);
      }
    }
  }

  lemma {:induction false} TypeAdded(sc: Schema, g: Graph, visited: set<string>, key: NodeKey, tf: TargetFields)
    requires FieldsPartly(sc, g, visited, key.typ, FieldsOfType(sc, key.typ), tf)
    ensures FieldsOfTypes(sc, g, visited + {key.typ}, tf)
  {
    var all := FieldsOfType(sc, key.typ);
    forall fk, lk
      ensures LooksUpWithin(sc, g, visited, key.typ, all, fk, lk) <==> LooksUp(sc, g, fk, lk) && fk.holder.typ in visited + {key.typ}
    {
    }
  }

  // ---------------------------------------------------------------- the index itself

  /** `k` has already been indexed under the field `lk` names. */
  ghost predicate Indexed(g: Graph, done: set<NodeKey>, key: NodeKey, doneFields: set<string>, k: NodeKey, lk: TargetKey) {
    Bears(g, k, lk) && (k in done || (k == key && lk.field in doneFields))
  }

  ghost predicate IndexPartly(g: Graph, tf: TargetFields, done: set<NodeKey>, key: NodeKey, doneFields: set<string>, targets: TargetIndex) {
    && (forall lk :: lk in targets <==> Searchable(tf, lk) && exists k :: Indexed(g, done, key, doneFields, k, lk))
    && (forall lk :: lk in targets ==>
          && Indexed(g, done, key, doneFields, targets[lk].key, lk)
          && (targets[lk].duplicate <==> exists j :: j != targets[lk].key && Indexed(g, done, key, doneFields, j, lk)))
  }

  /** Every node under every searchable field; a second node with the same key marks it duplicate. */
  method BuildRelationTargetIndexFromFields(nodes: Graph, tf: TargetFields) returns (targets: TargetIndex)
    ensures TargetIndexExact(nodes, tf, targets)
  {
    targets := map[];
    var rest := nodes.Keys;
    ghost var any := NodeKey("", 0);
    while rest != {}
      invariant rest <= nodes.Keys && IndexPartly(nodes, tf, nodes.Keys - rest, any, {}, targets)
      decreases |rest|
    {
      var key :| key in rest;
      ghost var done := nodes.Keys - rest;
      targets := IndexRelationNodeTargets(nodes, tf, done, targets, key);
      assert nodes.Keys - (rest - {key}) == done + {key};
      rest := rest - {key};
    }
    forall lk | lk in targets ensures targets[lk].duplicate <==> !Sole(nodes, targets[lk].key, lk) {
      assert forall j :: Indexed(nodes, nodes.Keys - rest, any, {}, j, lk) <==> Bears(nodes, j, lk);
    }
    forall lk ensures lk in targets <==> Searchable(tf, lk) && exists k :: Bears(nodes, k, lk) {
      assert forall j :: Indexed(nodes, nodes.Keys - rest, any, {}, j, lk) <==> Bears(nodes, j, lk);
    }
  }

  method IndexRelationNodeTargets(nodes: Graph, tf: TargetFields, ghost done: set<NodeKey>, targets0: TargetIndex, key: NodeKey)
    returns (targets: TargetIndex)
    requires key in nodes && key !in done && IndexPartly(nodes, tf, done, NodeKey("", 0), {}, targets0)
    ensures IndexPartly(nodes, tf, done + {key}, NodeKey("", 0), {}, targets)
  {
    hide IndexPartly, Indexed;
    targets := targets0;
    var all := if key.typ in tf then tf[key.typ] else {};
    var rest := all;
    RenameKey(nodes, tf, done, key, targets);
    assert all - rest == {};
    while rest != {}
      invariant rest <= all && IndexPartly(nodes, tf, done, key, all - rest, targets)
      decreases |rest|
    {
      var field :| field in rest;
      ghost var before, doneFields := targets, all - rest;
      if field in nodes[key].scalars {
        var lk := TargetKey(key.typ, field, nodes[key].scalars[field]);
        if lk in targets {
          targets := targets[lk := targets[lk].(duplicate := true)];
        } else {
          targets := targets[lk := IndexedTarget(key, false)];
        }
      }
      KeyIndexed(nodes, tf, done, key, doneFields, field, before, targets);
      assert all - (rest - {field}) == doneFields + {field};
      rest := rest - {field};
    }
    assert all - rest == all;
    NodeIndexed(nodes, tf, done, key, all, targets);
  }

  lemma {:induction false} RenameKey(g: Graph, tf: TargetFields, done: set<NodeKey>, key: NodeKey, targets: TargetIndex)
    requires IndexPartly(g, tf, done, NodeKey("", 0), {}, targets)
    ensures IndexPartly(g, tf, done, key, {}, targets)
  {
    forall k, lk ensures Indexed(g, done, NodeKey("", 0), {}, k, lk) <==> Indexed(g, done, key, {}, k, lk) {
    }
  }

  lemma {:induction false} NodeIndexed(g: Graph, tf: TargetFields, done: set<NodeKey>, key: NodeKey, all: set<string>, targets: TargetIndex)
    requires IndexPartly(g, tf, done, key, all, targets) && all == if key.typ in tf then tf[key.typ] else {}
    ensures IndexPartly(g, tf, done + {key}, NodeKey("", 0), {}, targets)
  {
    forall k, lk | Searchable(tf, lk)
      ensures Indexed(g, done, key, all, k, lk) <==> Indexed(g, done + {key}, NodeKey("", 0), {}, k, lk)
    {
    }
  }

  lemma {:induction false} KeyIndexed(g: Graph, tf: TargetFields, done: set<NodeKey>, key: NodeKey, doneFields: set<string>, field: string,
                   before: TargetIndex, after: TargetIndex)
    requires key in g && key !in done && field !in doneFields && key.typ in tf && field in tf[key.typ]
    requires IndexPartly(g, tf, done, key, doneFields, before)
    requires after == if field !in g[key].scalars then before
                      else var lk := TargetKey(key.typ, field, g[key].scalars[field]);
                           before[lk := if lk in before then before[lk].(duplicate := true) else IndexedTarget(key, false)]
    ensures IndexPartly(g, tf, done, key, doneFields + {field}, after)
  {
    forall k, lk
      ensures Indexed(g, done, key, doneFields + {field}, k, lk) <==>
              Indexed(g, done, key, doneFields, k, lk) || (k == key && lk.field == field && Bears(g, key, lk))
    {
    }
    if field in g[key].scalars {
      var lk := TargetKey(key.typ, field, g[key].scalars[field]);
      assert forall other :: other != lk ==> !(other.field == field && Bears(g, key, other));
      assert Indexed(g, done, key, doneFields + {field}, key, lk) && !Indexed(g, done, key, doneFields, key, lk);
    }
  }

  /** A full validation of the live rows, from nothing. */
  method BuildRelationModel(sc: Schema, nodes: Graph) returns (r: Result<RelationModel, RelationError>)
    requires WellFormed(sc)
    ensures r.Ok? <==> Buildable(sc, nodes)
    ensures r.Ok? ==> fresh(r.value) && r.value.sc == sc && r.value.nodes == nodes && r.value.Exact()
                      && TargetFieldsExact(sc, nodes, r.value.targetFields)
  {
    var tf := RelationTargetFields(sc, nodes);
    ExactCovers(sc, nodes, tf);
    var targets := BuildRelationTargetIndexFromFields(nodes, tf);
    hide *;
    r := BuildRelationModelFromTargets(sc, nodes, targets, tf);
  }
}
