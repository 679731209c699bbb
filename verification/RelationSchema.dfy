/** Relation roles and declarations: the static half of relations.go. */
module RelationSchema {

  /** The lifecycle role of one relation field. */
  datatype Kind = Own | OwnedBy | Borrow | Optional | Inverse

  /** One declared relation field. `many` is the `[]*T` shape, otherwise `*T`. */
  datatype Spec = Spec(name: string, target: string, kind: Kind, matchField: string, many: bool)
  {
    /** The field of the target that a pointer is looked up by. An own slice always uses the id. */
    function LookupField(): string {
      if kind == Own && many then "Id" else matchField
    }

    /** A survivor may hold this relation with no live target. */
    predicate MayBeMissing() {
      kind == Optional || (many && (kind == Borrow || kind == Own))
    }
  }

  /** Declarations by type name, then by the index of the struct field. */
  type Schema = map<string, map<nat, Spec>>

  /** A scalar lookup value. Zero values are never indexed, so a missing key stands for them. */
  datatype Value = IntValue(number: int) | TextValue(text: string)

  datatype NodeKey = NodeKey(typ: string, id: int)

  /** One relation field of one node. */
  datatype FieldKey = FieldKey(holder: NodeKey, field: nat)

  /** What a relation pointer is resolved by: a field value of some type. */
  datatype TargetKey = TargetKey(typ: string, field: string, value: Value)

  /** `field` of type `typ` is an authoritative relation. Inverse views are computed, not declared. */
  predicate Declares(sc: Schema, typ: string, field: nat) {
    typ in sc && field in sc[typ] && sc[typ][field].kind != Inverse
  }

  predicate IsView(sc: Schema, typ: string, field: nat) {
    typ in sc && field in sc[typ] && sc[typ][field].kind == Inverse
  }

  /** What registration guarantees: ownedby is to-one and declared at most once per type. */
  ghost predicate WellFormed(sc: Schema) {
    && (forall t, f :: IsOwnedBy(sc, t, f) ==> !sc[t][f].many)
    && (forall t, f, f' :: IsOwnedBy(sc, t, f) && IsOwnedBy(sc, t, f') ==> f == f')
  }

  predicate IsOwn(sc: Schema, typ: string, field: nat) {
    Declares(sc, typ, field) && sc[typ][field].kind == Own
  }

  predicate IsOwnedBy(sc: Schema, typ: string, field: nat) {
    Declares(sc, typ, field) && sc[typ][field].kind == OwnedBy
  }
}
