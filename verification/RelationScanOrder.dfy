/** The order in which an index delta scans a list of rows: row by row, and each row's fields as its struct declares them. */
module RelationScanOrder {
  import opened RelationSchema
  import opened RelationGraph
  import opened RelationModels
  import opened RelationFieldDeltas
  import opened RelationDeltas

  lemma {:induction false} LeastOf(fields: set<nat>) returns (least: nat)
    requires fields != {}
    ensures least in fields && forall f :: f in fields ==> least <= f
  {
    var some :| some in fields;
    var rest := fields - {some};
    assert forall f :: f in fields ==> f == some || f in rest;
    least := some;
    if rest != {} {
      var lower := LeastOf(rest);
      least := if lower < some then lower else some;
    }
  }

  predicate IsLeast(fields: set<nat>, f: nat) {
    f in fields && forall f' :: f' in fields ==> f <= f'
  }

  lemma {:induction false} HasLeast(fields: set<nat>)
    requires fields != {}
    ensures exists f :: IsLeast(fields, f)
  {
    var least := LeastOf(fields);
    assert IsLeast(fields, least);
  }

  /** Fields in the order the struct declares them. */
  ghost function Declared(fields: set<nat>): (list: seq<nat>)
    ensures |list| == |fields| && forall f :: f in list <==> f in fields
  {
    if fields == {} then []
    else
      HasLeast(fields);
      var least :| IsLeast(fields, least);
      [least] + Declared(fields - {least})
  }

  lemma {:induction false} DeclaredNext(fields: set<nat>, f: nat)
    requires IsLeast(fields, f)
    ensures Declared(fields) == [f] + Declared(fields - {f})
  {
  }

  ghost function ScanField(sc: Schema, h: Graph, o: Override, f: nat): FieldDelta
    requires Declares(sc, o.key.typ, f)
  {
    var fk := FieldKey(o.key, f);
    FieldDelta(fk, Targets(h, SpecOf(sc, fk), Refs(o.row, SpecOf(sc, fk), f)))
  }

  /** The scans of some of a row's fields, in order. */
  ghost function ScanFields(sc: Schema, h: Graph, o: Override, fields: seq<nat>): (scans: seq<FieldDelta>)
    requires forall f :: f in fields ==> Declares(sc, o.key.typ, f)
    ensures |scans| == |fields|
    ensures forall i :: 0 <= i < |fields| ==> scans[i] == ScanField(sc, h, o, fields[i])
  {
    seq(|fields|, i requires 0 <= i < |fields| => assert fields[i] in fields; ScanField(sc, h, o, fields[i]))
  }

  ghost function ScanRow(sc: Schema, h: Graph, o: Override): seq<FieldDelta> {
    ScanFields(sc, h, o, Declared(FieldsOfType(sc, o.key.typ)))
  }

  /** All scans of a list of rows: row by row, field by field as declared. */
  ghost function ScanRows(sc: Schema, h: Graph, overrides: seq<Override>): seq<FieldDelta> {
    if overrides == [] then []
    else ScanRows(sc, h, overrides[..|overrides| - 1]) + ScanRow(sc, h, overrides[|overrides| - 1])
  }

  lemma {:induction false} ScanRowsStep(sc: Schema, h: Graph, overrides: seq<Override>, n: nat)
    requires n < |overrides|
    ensures ScanRows(sc, h, overrides[..n + 1]) == ScanRows(sc, h, overrides[..n]) + ScanRow(sc, h, overrides[n])
  {
    assert overrides[..n + 1][..n] == overrides[..n];
  }

  /** The fields in `rest` of row `o` are still to be scanned. */
  ghost predicate ScansUpTo(sc: Schema, h: Graph, o: Override, rest: set<nat>, scans0: seq<FieldDelta>, scans: seq<FieldDelta>) {
    && rest <= FieldsOfType(sc, o.key.typ)
    && scans + ScanFields(sc, h, o, Declared(rest)) == scans0 + ScanRow(sc, h, o)
  }

  lemma {:induction false} ScansUpToStep(sc: Schema, h: Graph, o: Override, rest: set<nat>, scans0: seq<FieldDelta>, scans: seq<FieldDelta>, f: nat)
    requires ScansUpTo(sc, h, o, rest, scans0, scans) && IsLeast(rest, f)
    ensures Declares(sc, o.key.typ, f)
    ensures ScansUpTo(sc, h, o, rest - {f}, scans0, scans + [ScanField(sc, h, o, f)])
  {
    hide ScanField, ScanFields, ScanRow, Declared;
    DeclaredNext(rest, f);
    var s, later := ScanField(sc, h, o, f), Declared(rest - {f});
    ScanFieldsStep(sc, h, o, f, later);
    assert scans + ([s] + ScanFields(sc, h, o, later)) == (scans + [s]) + ScanFields(sc, h, o, later);
  }

  lemma {:induction false} ScanFieldsStep(sc: Schema, h: Graph, o: Override, f: nat, later: seq<nat>)
    requires Declares(sc, o.key.typ, f) && forall f' :: f' in later ==> Declares(sc, o.key.typ, f')
    ensures ScanFields(sc, h, o, [f] + later) == [ScanField(sc, h, o, f)] + ScanFields(sc, h, o, later)
  {
    hide ScanField, ScanFields;
    var all := [f] + later;
    forall i | 0 <= i < |all| ensures ScanFields(sc, h, o, all)[i] == ([ScanField(sc, h, o, f)] + ScanFields(sc, h, o, later))[i] {
    }
  }

  lemma {:induction false} ScansUpToEnds(sc: Schema, h: Graph, o: Override, scans0: seq<FieldDelta>, scans: seq<FieldDelta>)
    ensures ScansUpTo(sc, h, o, FieldsOfType(sc, o.key.typ), scans0, scans0)
    ensures ScansUpTo(sc, h, o, {}, scans0, scans) ==> scans == scans0 + ScanRow(sc, h, o)
  {
    assert scans + [] == scans;
  }

  // ---------------------------------------------------------------- where a field stands

  /** The link fields a type declares before `field`. */
  function Earlier(fields: set<nat>, field: nat): set<nat> {
    set f | f in fields && f < field
  }

  /** How many link fields a type declares. */
  function Width(sc: Schema, typ: string): nat {
    |FieldsOfType(sc, typ)|
  }

  /** The position of a field among them. */
  function Rank(sc: Schema, fk: FieldKey): nat {
    |Earlier(FieldsOfType(sc, fk.holder.typ), fk.field)|
  }

  lemma {:induction false} DeclaredAt(fields: set<nat>, f: nat)
    requires f in fields
    ensures |Earlier(fields, f)| < |fields| && Declared(fields)[|Earlier(fields, f)|] == f
  {
    HasLeast(fields);
    var least :| IsLeast(fields, least);
    DeclaredNext(fields, least);
    if f == least {
      assert Earlier(fields, f) == {};
    } else {
      DeclaredAt(fields - {least}, f);
      assert Earlier(fields, f) == Earlier(fields - {least}, f) + {least};
    }
  }

  lemma {:induction false} DeclaredOnce(fields: set<nat>, i: nat, j: nat)
    requires i < |fields| && j < |fields| && Declared(fields)[i] == Declared(fields)[j]
    ensures i == j
  {
    HasLeast(fields);
    var least :| IsLeast(fields, least);
    DeclaredNext(fields, least);
    var rest := Declared(fields - {least});
    assert forall k :: 0 < k < |fields| ==> Declared(fields)[k] == rest[k - 1];
    if i > 0 && j > 0 {
      DeclaredOnce(fields - {least}, i - 1, j - 1);
    }
    assert forall k :: 0 <= k < |rest| ==> rest[k] in rest;
  }

  lemma {:induction false} RowScanned(sc: Schema, h: Graph, o: Override, f: nat)
    requires f in FieldsOfType(sc, o.key.typ)
    ensures var at := |Earlier(FieldsOfType(sc, o.key.typ), f)|;
            && at < |ScanRow(sc, h, o)| == Width(sc, o.key.typ)
            && ScanRow(sc, h, o)[at] == ScanField(sc, h, o, f)
  {
    DeclaredAt(FieldsOfType(sc, o.key.typ), f);
  }
}
