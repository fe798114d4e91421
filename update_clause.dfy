/** The `SET` list that the student and librarian repositories build for a
    partial update: one `column = ?` item per key whose value is not
    `undefined`, in a fixed field order, with the bound values alongside. */
module UpdateClause {
  import opened Common

  /** One key of an update object: the column it names and its value, or
      None when the key is `undefined`. An empty string is a value. */
  datatype Field = Field(column: string, value: Option<string>)

  predicate IsDefined(f: Field) {
    f.value.Some?
  }

  /** The fields that are written, in field order. */
  function DefinedFields(fields: seq<Field>): (r: seq<Field>)
    ensures forall f :: f in r <==> f in fields && IsDefined(f)
  {
    Filter(fields, IsDefined)
  }

  /** The `SET` item for one field. */
  function Assignment(f: Field): string {
    f.column + " = ?"
  }

  /** `updates`: the items joined into `SET ...`. */
  function SetList(fields: seq<Field>): (r: seq<string>)
    ensures |r| == |DefinedFields(fields)|
  {
    var d := DefinedFields(fields);
    seq(|d|, i requires 0 <= i < |d| => Assignment(d[i]))
  }

  /** `values`: the bound parameters, in the same order as the items. */
  function ValueList(fields: seq<Field>): (r: seq<string>)
    ensures |r| == |DefinedFields(fields)|
  {
    var d := DefinedFields(fields);
    assert forall i :: 0 <= i < |d| ==> d[i] in d;
    seq(|d|, i requires 0 <= i < |d| => d[i].value.value)
  }

  /** What one `if (data.x !== undefined)` step appends. */
  function StepItems(f: Field): seq<string> {
    if f.value.Some? then [Assignment(f)] else []
  }

  function StepValues(f: Field): seq<string> {
    if f.value.Some? then [f.value.value] else []
  }

  /** The lists a builder holds once it has looked at the fields `done`. */
  ghost predicate Built(done: seq<Field>, updates: seq<string>, values: seq<string>) {
    updates == SetList(done) && values == ValueList(done)
  }

  /** One `if (data.x !== undefined) { updates.push(...); values.push(...) }`
      step of a builder: after the fields `done`, the lists grow by `f`. */
  method PushIfDefined(ghost done: seq<Field>, updates: seq<string>, values: seq<string>, f: Field)
    returns (updates': seq<string>, values': seq<string>)
    requires Built(done, updates, values)
    ensures Built(done + [f], updates', values')
  {
    ClauseSnoc(done, f);
    updates', values' := updates, values;
    if f.value.Some? {
      updates' := updates' + [f.column + " = ?"];
      values' := values' + [f.value.value];
    }
  }

  /** Each step appends its own field at the end of both lists, so the
      lists follow field order. */
  lemma ClauseSnoc(fields: seq<Field>, f: Field)
    ensures SetList(fields + [f]) == SetList(fields) + StepItems(f)
    ensures ValueList(fields + [f]) == ValueList(fields) + StepValues(f)
  {
    DefinedSnoc(fields, f);
    SetListSnoc(fields, f);
    ValueListSnoc(fields, f);
  }

  /** A field appended at the end is selected last, when it is defined. */
  lemma DefinedSnoc(fields: seq<Field>, f: Field)
    ensures DefinedFields(fields + [f]) == DefinedFields(fields) + (if IsDefined(f) then [f] else [])
  {
    FilterAppend(fields, [f], IsDefined);
    assert [f][1..] == [];
  }

  lemma SetListSnoc(fields: seq<Field>, f: Field)
    requires DefinedFields(fields + [f]) == DefinedFields(fields) + (if IsDefined(f) then [f] else [])
    ensures SetList(fields + [f]) == SetList(fields) + StepItems(f)
  {
    var a, d := DefinedFields(fields), DefinedFields(fields + [f]);
    var left, right := SetList(fields + [f]), SetList(fields) + StepItems(f);
    assert |left| == |right|;
    forall i | 0 <= i < |left| ensures left[i] == right[i] {
      if i < |a| {
        assert d[i] == a[i];
      } else {
        assert d[i] == f;
      }
    }
  }

  lemma ValueListSnoc(fields: seq<Field>, f: Field)
    requires DefinedFields(fields + [f]) == DefinedFields(fields) + (if IsDefined(f) then [f] else [])
    ensures ValueList(fields + [f]) == ValueList(fields) + StepValues(f)
  {
    var a, d := DefinedFields(fields), DefinedFields(fields + [f]);
    var left, right := ValueList(fields + [f]), ValueList(fields) + StepValues(f);
    assert |left| == |right|;
    forall i | 0 <= i < |left| ensures left[i] == right[i] {
      if i < |a| {
        assert d[i] == a[i];
      } else {
        assert d[i] == f;
      }
    }
  }

  /** Items and values are aligned: the i-th item and the i-th value come
      from the same defined field. */
  lemma ClauseAligned(fields: seq<Field>, i: nat)
    requires i < |SetList(fields)|
    ensures |SetList(fields)| == |ValueList(fields)|
    ensures exists f ::
      && f in fields && IsDefined(f)
      && SetList(fields)[i] == Assignment(f) && ValueList(fields)[i] == f.value.value
  {
    var d := DefinedFields(fields);
    assert d[i] in d;
    assert SetList(fields)[i] == Assignment(d[i]) && ValueList(fields)[i] == d[i].value.value;
  }

  /** Every defined field is written. */
  lemma DefinedFieldIsWritten(fields: seq<Field>, f: Field)
    requires f in fields && IsDefined(f)
    ensures Assignment(f) in SetList(fields)
  {
    var d := DefinedFields(fields);
    var k :| 0 <= k < |d| && d[k] == f;
    assert SetList(fields)[k] == Assignment(f);
  }

  /** The list is empty exactly when no field is defined. */
  lemma ClauseEmptyIffNoneDefined(fields: seq<Field>)
    ensures SetList(fields) == [] <==> forall i :: 0 <= i < |fields| ==> fields[i].value.None?
  {
    if exists i :: 0 <= i < |fields| && fields[i].value.Some? {
      var i :| 0 <= i < |fields| && fields[i].value.Some?;
      DefinedFieldIsWritten(fields, fields[i]);
      assert SetList(fields) != [];
    } else {
      FilterNoneEmpty(fields, IsDefined);
    }
  }
}
