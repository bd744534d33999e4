/** The schema validator: checks one record or a whole batch against the field
    rules of a table, coercing values to the declared types as it goes, and
    prepares a batch for import. */
module SchemaValidation {
  import opened Wrappers
  import opened Dicts
  import opened Frames
  import opened SchemaRules

  datatype SchemaError =
    | UnknownTable(table: string)           // "Unknown table: ..."
    | MissingColumns(columns: seq<string>)  // "Missing required columns: ..."

  /* ---------------------------------------------------------------------- */
  /* One record                                                             */
  /* ---------------------------------------------------------------------- */

  /** A field counts as not supplied when absent, `None` or the empty string. */
  predicate IsBlank(v: Option<Value>)
  {
    v.None? || v == Some(Missing) || v == Some(Str(""))
  }

  /** Python's `int(x)` on a number: truncation toward zero. */
  function Truncate(x: real): (t: int)
    ensures x >= 0.0 ==> t as real <= x < t as real + 1.0
    ensures x < 0.0 ==> t as real - 1.0 < x <= t as real
  {
    if x >= 0.0 then x.Floor else -((-x).Floor)
  }

  /** `str(x)`. */
  function PyStr(conv: Conversions, v: Value): string
  {
    match v
    case Missing => "None"
    case Str(s) => s
    case Num(n) => conv.render(n)
  }

  datatype Coercion =
    | Unchanged               // no conversion is attempted for this type
    | Coerced(value: Value)   // the converted value written back to the record
    | Invalid(typeName: string)

  /** The conversion attempted for a declared type: `float(v)`, `int(v)` or
      `str(v)`; `bool`, `date`, `datetime`, unknown or absent types are left
      alone. */
  function Coerce(conv: Conversions, ty: Option<FieldType>, v: Value): (c: Coercion)
    ensures c.Invalid? ==> IsNumericType(ty) && c.typeName == if ty == Some(FloatType) then "float" else "int"
    ensures c.Coerced? && IsNumericType(ty) ==> c.value.Num?
    ensures c.Unchanged? <==> !IsNumericType(ty) && ty != Some(StrType)
    // a number under float is kept; under int it is truncated toward zero
    ensures ty == Some(FloatType) && v.Num? ==> c == Coerced(v)
    ensures ty == Some(IntType) && v.Num? ==> c == Coerced(Num(Truncate(v.n) as real))
    // text under float or int converts exactly when the parser accepts it
    ensures ty == Some(FloatType) && v.Str? ==>
              if conv.parseFloat(v.s).Some? then c == Coerced(Num(conv.parseFloat(v.s).value)) else c.Invalid?
    ensures ty == Some(IntType) && v.Str? ==>
              if conv.parseInt(v.s).Some? then c == Coerced(Num(conv.parseInt(v.s).value as real)) else c.Invalid?
    ensures IsNumericType(ty) && v.Missing? ==> c.Invalid?
    // under str, text is itself and other values are their rendering
    ensures ty == Some(StrType) && v.Str? ==> c == Coerced(v)
    ensures ty == Some(StrType) && v.Num? ==> c == Coerced(Str(conv.render(v.n)))
    ensures ty == Some(StrType) && v.Missing? ==> c == Coerced(Str("None"))
  {
    match ty
    case Some(FloatType) =>
      (match v
       case Num(n) => Coerced(Num(n))
       case Str(s) => if conv.parseFloat(s).Some? then Coerced(Num(conv.parseFloat(s).value)) else Invalid("float")
       case Missing => Invalid("float"))
    case Some(IntType) =>
      (match v
       case Num(n) => Coerced(Num(Truncate(n) as real))
       case Str(s) => if conv.parseInt(s).Some? then Coerced(Num(conv.parseInt(s).value as real)) else Invalid("int")
       case Missing => Invalid("int"))
    case Some(StrType) => Coerced(Str(PyStr(conv, v)))
    case _ => Unchanged
  }

  function AtLeastMessage(conv: Conversions, name: string, bound: real): string
  {
    name + " must be at least " + conv.render(bound)
  }

  function AtMostMessage(conv: Conversions, name: string, bound: real): string
  {
    name + " must be at most " + conv.render(bound)
  }

  predicate IsNumericType(ty: Option<FieldType>)
  {
    ty == Some(FloatType) || ty == Some(IntType)
  }

  /** The bound check of a numeric field: the `min` message is written first
      and the `max` message, when it also applies, overwrites it. */
  function BoundError(conv: Conversions, name: string, rule: Rule, y: Value): (r: Option<string>)
    ensures r.Some? <==> IsNumericType(rule.ty) && y.Num?
                         && ((rule.min.Some? && y.n < rule.min.value) || (rule.max.Some? && y.n > rule.max.value))
    ensures y.Num? && rule.max.Some? && y.n > rule.max.value && r.Some?
            ==> r.value == AtMostMessage(conv, name, rule.max.value)
    ensures y.Num? && !(rule.max.Some? && y.n > rule.max.value) && r.Some?
            ==> r.value == AtLeastMessage(conv, name, rule.min.value)
  {
    if IsNumericType(rule.ty) && y.Num? then
      var atLeast := if rule.min.Some? && y.n < rule.min.value
                     then Some(AtLeastMessage(conv, name, rule.min.value)) else None;
      if rule.max.Some? && y.n > rule.max.value
      then Some(AtMostMessage(conv, name, rule.max.value)) else atLeast
    else None
  }

  /** What validating one field does: the value the record holds for it
      afterwards, and the message recorded for it, if any. */
  datatype FieldCheck = FieldCheck(after: Option<Value>, error: Option<string>)

  function CheckField(conv: Conversions, name: string, rule: Rule, v: Option<Value>): (c: FieldCheck)
    ensures c.after.Some? <==> v.Some?
  {
    if IsBlank(v) then FieldCheck(v, if rule.required then Some(name + " is required") else None)
    else
      match Coerce(conv, rule.ty, v.value)
      case Invalid(typeName) => FieldCheck(v, Some(name + " must be a valid " + typeName))
      case Unchanged => FieldCheck(v, BoundError(conv, name, rule, v.value))
      case Coerced(y) => FieldCheck(Some(y), BoundError(conv, name, rule, y))
  }

  /** One entry of the record after validation. */
  function FixEntry(conv: Conversions, fields: TableSchema, e: (string, Value)): (string, Value)
  {
    match Lookup(fields, e.0)
    case None => e
    case Some(rule) =>
      var c := CheckField(conv, e.0, rule, Some(e.1));
      (e.0, c.after.value)
  }

  /** The record as validation leaves it: entries in the same order, schema
      fields replaced by their coerced values. */
  function CoercedRecord(conv: Conversions, fields: TableSchema, record: Dict<Value>): Dict<Value>
  {
    seq(|record|, p requires 0 <= p < |record| => FixEntry(conv, fields, record[p]))
  }

  /** `m` recorded under `name` after the entries of `s`. */
  function Recorded(s: Dict<string>, name: string, m: Option<string>): Dict<string>
  {
    if m.Some? then s + [(name, m.value)] else s
  }

  /** The error dictionary: one entry per failing field, in schema order. */
  function FieldErrors(conv: Conversions, fields: TableSchema, record: Dict<Value>): Dict<string>
    decreases |fields|
  {
    if fields == [] then []
    else
      var prev := FieldErrors(conv, fields[..|fields| - 1], record);
      var (name, rule) := fields[|fields| - 1];
      Recorded(prev, name, CheckField(conv, name, rule, Lookup(record, name)).error)
  }

  /** Recording a message under a name the map does not hold yet. */
  lemma RecordedFresh(s: Dict<string>, name: string, m: Option<string>, k: string)
    requires UniqueKeys(s) && name !in Keys(s)
    ensures UniqueKeys(Recorded(s, name, m))
    ensures k in Keys(Recorded(s, name, m)) ==> k in Keys(s) || k == name
    ensures Lookup(Recorded(s, name, m), k) == if k == name then m else Lookup(s, k)
  {
    if m.Some? {
      AppendAbsent(s, name, m.value, k);
    }
  }

  lemma {:induction false} FieldErrorsKeys(conv: Conversions, fields: TableSchema, record: Dict<Value>)
    requires UniqueKeys(fields)
    ensures forall k :: k in Keys(FieldErrors(conv, fields, record)) ==> k in Keys(fields)
    ensures UniqueKeys(FieldErrors(conv, fields, record))
    decreases |fields|
  {
    if fields != [] {
      var init := fields[..|fields| - 1];
      var prev := FieldErrors(conv, init, record);
      FieldErrorsKeys(conv, init, record);
      var name := fields[|fields| - 1].0;
      var m := CheckField(conv, name, fields[|fields| - 1].1, Lookup(record, name)).error;
      assert FieldErrors(conv, fields, record) == Recorded(prev, name, m);
      assert Keys(fields) == Keys(init) + [name];
      KeyNotBefore(fields, |fields| - 1);
      forall k | k in Keys(Recorded(prev, name, m)) ensures k in Keys(fields) {
        RecordedFresh(prev, name, m, k);
      }
      RecordedFresh(prev, name, m, name);
    }
  }

  /** Validation records exactly the message `CheckField` gives each field. */
  lemma {:induction false} FieldErrorsLookup(conv: Conversions, fields: TableSchema, record: Dict<Value>, i: nat)
    requires UniqueKeys(fields) && i < |fields|
    ensures Lookup(FieldErrors(conv, fields, record), fields[i].0)
            == CheckField(conv, fields[i].0, fields[i].1, Lookup(record, fields[i].0)).error
    decreases |fields|
  {
    var last := |fields| - 1;
    var init := fields[..last];
    var name := fields[last].0;
    var prev := FieldErrors(conv, init, record);
    var m := CheckField(conv, name, fields[last].1, Lookup(record, name)).error;
    assert FieldErrors(conv, fields, record) == Recorded(prev, name, m);
    FieldErrorsKeys(conv, init, record);
    KeyNotBefore(fields, last);
    RecordedFresh(prev, name, m, fields[i].0);
    if i < last {
      FieldErrorsLookup(conv, init, record, i);
      assert init[i] == fields[i];
    }
  }

  /** The coerced record keeps every key in place, changes only schema fields,
      and holds for each schema field the value `CheckField` leaves. */
  lemma {:induction false} CoercedRecordLookup(conv: Conversions, fields: TableSchema, record: Dict<Value>, k: string)
    requires UniqueKeys(fields) && UniqueKeys(record)
    ensures Keys(CoercedRecord(conv, fields, record)) == Keys(record)
    ensures UniqueKeys(CoercedRecord(conv, fields, record))
    ensures Lookup(CoercedRecord(conv, fields, record), k)
            == match Lookup(fields, k)
               case None => Lookup(record, k)
               case Some(rule) => CheckField(conv, k, rule, Lookup(record, k)).after
  {
    var out := CoercedRecord(conv, fields, record);
    assert forall p :: 0 <= p < |out| ==> out[p].0 == record[p].0;
    assert Keys(out) == Keys(record);
    if k in Keys(record) {
      var p := KeyIndex(record, k);
      LookupAt(record, p);
      LookupAt(out, p);
    }
  }

  /** `rec` is `record` with the first `i` schema fields validated. */
  ghost predicate CoercedUpTo(conv: Conversions, fields: TableSchema, record: Dict<Value>, i: nat, rec: Dict<Value>)
    requires i <= |fields|
  {
    && |rec| == |record|
    && forall p :: 0 <= p < |record| ==>
         rec[p] == if record[p].0 in Keys(fields[..i]) then FixEntry(conv, fields, record[p]) else record[p]
  }

  lemma {:induction false} CoercedUpToStep(conv: Conversions, fields: TableSchema, record: Dict<Value>, i: nat,
                                           before: Dict<Value>, rec: Dict<Value>)
    requires UniqueKeys(fields) && UniqueKeys(record) && i < |fields|
    requires CoercedUpTo(conv, fields, record, i, before)
    requires var c := CheckField(conv, fields[i].0, fields[i].1, Lookup(before, fields[i].0));
             rec == if c.after.Some? then Put(before, fields[i].0, c.after.value) else before
    ensures Lookup(before, fields[i].0) == Lookup(record, fields[i].0)
    ensures CoercedUpTo(conv, fields, record, i + 1, rec)
  {
    var field := fields[i].0;
    assert Keys(fields[..i + 1]) == Keys(fields[..i]) + [field];
    KeyNotBefore(fields, i);
    LookupAt(fields, i);
    LookupAgree(record, before, field);
    var c := CheckField(conv, field, fields[i].1, Lookup(before, field));
    if c.after.Some? {
      var p0 := KeyIndex(record, field);
      assert before[p0].0 == field;
      PutAt(before, p0, c.after.value);
      LookupAt(record, p0);
    }
    forall p | 0 <= p < |record|
      ensures rec[p] == if record[p].0 in Keys(fields[..i + 1]) then FixEntry(conv, fields, record[p]) else record[p]
    {
      if record[p].0 == field {
        LookupAt(record, p);
        assert rec[p] == (field, c.after.value);
      } else {
        assert record[p].0 in Keys(fields[..i + 1]) <==> record[p].0 in Keys(fields[..i]);
      }
    }
  }

  /** Every message key is a schema field, once: the lookup of any key in the
      error map is the message `CheckField` gives that field, or nothing for a
      key outside the schema. */
  lemma FieldErrorsAt(conv: Conversions, fields: TableSchema, record: Dict<Value>, k: string)
    requires UniqueKeys(fields)
    ensures Lookup(FieldErrors(conv, fields, record), k)
            == match Lookup(fields, k)
               case None => None
               case Some(rule) => CheckField(conv, k, rule, Lookup(record, k)).error
  {
    FieldErrorsKeys(conv, fields, record);
    if k in Keys(fields) {
      var i := KeyIndex(fields, k);
      LookupAt(fields, i);
      FieldErrorsLookup(conv, fields, record, i);
    }
  }

  /** A schema field that is absent, `None` or empty is left as it is, and its
      only possible message is the required one. */
  lemma BlankFieldOutcome(conv: Conversions, fields: TableSchema, record: Dict<Value>, i: nat)
    requires UniqueKeys(fields) && UniqueKeys(record) && i < |fields|
    requires IsBlank(Lookup(record, fields[i].0))
    ensures Lookup(CoercedRecord(conv, fields, record), fields[i].0) == Lookup(record, fields[i].0)
    ensures Lookup(FieldErrors(conv, fields, record), fields[i].0)
            == if fields[i].1.required then Some(fields[i].0 + " is required") else None
  {
    LookupAt(fields, i);
    CoercedRecordLookup(conv, fields, record, fields[i].0);
    FieldErrorsLookup(conv, fields, record, i);
  }

  /** A supplied value that does not convert to the field's float or int type
      stays in the record as it was, and the type message is the field's only
      message: no bound is checked. */
  lemma InvalidFieldOutcome(conv: Conversions, fields: TableSchema, record: Dict<Value>, i: nat)
    requires UniqueKeys(fields) && UniqueKeys(record) && i < |fields|
    requires !IsBlank(Lookup(record, fields[i].0))
    requires Coerce(conv, fields[i].1.ty, Lookup(record, fields[i].0).value).Invalid?
    ensures fields[i].1.ty == Some(FloatType) || fields[i].1.ty == Some(IntType)
    ensures Lookup(CoercedRecord(conv, fields, record), fields[i].0) == Lookup(record, fields[i].0)
    ensures Lookup(FieldErrors(conv, fields, record), fields[i].0)
            == Some(fields[i].0 + " must be a valid " + if fields[i].1.ty == Some(FloatType) then "float" else "int")
  {
    var (name, rule) := fields[i];
    var v := Lookup(record, name);
    var c := Coerce(conv, rule.ty, v.value);
    assert CheckField(conv, name, rule, v) == FieldCheck(v, Some(name + " must be a valid " + c.typeName));
    LookupAt(fields, i);
    CoercedRecordLookup(conv, fields, record, name);
    FieldErrorsLookup(conv, fields, record, i);
  }

  /** A supplied value that converts replaces the original in the record, is
      a number when the field is numeric, and its message is the bound it
      breaks (see `BoundError`). */
  lemma CoercedFieldOutcome(conv: Conversions, fields: TableSchema, record: Dict<Value>, i: nat)
    requires UniqueKeys(fields) && UniqueKeys(record) && i < |fields|
    requires !IsBlank(Lookup(record, fields[i].0))
    requires Coerce(conv, fields[i].1.ty, Lookup(record, fields[i].0).value).Coerced?
    ensures var y := Coerce(conv, fields[i].1.ty, Lookup(record, fields[i].0).value).value;
            && Lookup(CoercedRecord(conv, fields, record), fields[i].0) == Some(y)
            && (IsNumericType(fields[i].1.ty) ==> y.Num?)
            && Lookup(FieldErrors(conv, fields, record), fields[i].0) == BoundError(conv, fields[i].0, fields[i].1, y)
  {
    LookupAt(fields, i);
    CoercedRecordLookup(conv, fields, record, fields[i].0);
    FieldErrorsLookup(conv, fields, record, i);
  }

  /** `render` never yields the empty string (Python's `str` of a number never does). */
  ghost predicate RendersNonEmpty(conv: Conversions)
  {
    forall x :: conv.render(x) != ""
  }

  /** Checking a field again, on the value the first check left, changes
      nothing more and reports the same message. */
  lemma CheckFieldIdempotent(conv: Conversions, name: string, rule: Rule, v: Option<Value>)
    requires RendersNonEmpty(conv)
    ensures CheckField(conv, name, rule, CheckField(conv, name, rule, v).after) == CheckField(conv, name, rule, v)
  {
    if !IsBlank(v) && rule.ty == Some(IntType) && Coerce(conv, rule.ty, v.value).Coerced? {
      var k := if v.value.Num? then Truncate(v.value.n) else conv.parseInt(v.value.s).value;
      assert Truncate(k as real) == k;
    }
  }

  lemma {:induction false} FieldErrorsStable(conv: Conversions, fields: TableSchema, record: Dict<Value>, j: nat)
    requires UniqueKeys(fields) && UniqueKeys(record) && RendersNonEmpty(conv) && j <= |fields|
    ensures FieldErrors(conv, fields[..j], CoercedRecord(conv, fields, record)) == FieldErrors(conv, fields[..j], record)
  {
    if j > 0 {
      var pre := fields[..j];
      assert pre[..j - 1] == fields[..j - 1];
      FieldErrorsStable(conv, fields, record, j - 1);
      var (name, rule) := fields[j - 1];
      LookupAt(fields, j - 1);
      CoercedRecordLookup(conv, fields, record, name);
      CheckFieldIdempotent(conv, name, rule, Lookup(record, name));
    }
  }

  /** Validating a record that validation has already produced coerces
      nothing further and reports the same messages. */
  lemma RevalidationIsStable(conv: Conversions, fields: TableSchema, record: Dict<Value>)
    requires UniqueKeys(fields) && UniqueKeys(record) && RendersNonEmpty(conv)
    ensures CoercedRecord(conv, fields, CoercedRecord(conv, fields, record)) == CoercedRecord(conv, fields, record)
    ensures FieldErrors(conv, fields, CoercedRecord(conv, fields, record)) == FieldErrors(conv, fields, record)
  {
    var once := CoercedRecord(conv, fields, record);
    forall p | 0 <= p < |record|
      ensures FixEntry(conv, fields, once[p]) == once[p]
    {
      match Lookup(fields, record[p].0)
      case None =>
      case Some(rule) =>
        CheckFieldIdempotent(conv, record[p].0, rule, Some(record[p].1));
    }
    FieldErrorsStable(conv, fields, record, |fields|);
    assert fields[..|fields|] == fields;
  }

  /** The result of validating one record. */
  datatype RecordOutcome = RecordOutcome(record: Dict<Value>, errors: Dict<string>)

  /* ---------------------------------------------------------------------- */
  /* A batch                                                                */
  /* ---------------------------------------------------------------------- */

  /** Required schema fields with no column in the batch, in schema order. */
  function MissingRequired(fields: TableSchema, columns: Dict<seq<Value>>): (missing: seq<string>)
    ensures forall n :: n in missing <==>
              exists i :: 0 <= i < |fields| && fields[i].0 == n && fields[i].1.required && n !in Keys(columns)
  {
    if fields == [] then []
    else
      var rest := MissingRequired(fields[1..], columns);
      assert forall i :: 1 <= i < |fields| ==> fields[i] == fields[1..][i - 1];
      if fields[0].1.required && fields[0].0 !in Keys(columns) then [fields[0].0] + rest else rest
  }

  /** `astype(str)` on a column. */
  function TextColumn(conv: Conversions, vals: seq<Value>): seq<Value>
  {
    seq(|vals|, k requires 0 <= k < |vals| => Str(CellText(conv, vals[k])))
  }

  /** `pd.to_numeric(..., errors='coerce')` on a column. */
  function NumericColumn(conv: Conversions, vals: seq<Value>): seq<Value>
  {
    seq(|vals|, k requires 0 <= k < |vals| => ToNumeric(conv, vals[k]))
  }

  /** The column as batch validation rewrites it. */
  function ValidationColumn(conv: Conversions, rule: Rule, vals: seq<Value>): (r: seq<Value>)
    ensures |r| == |vals|
  {
    if rule.ty == Some(FloatType) then NumericColumn(conv, vals)
    else if rule.ty == Some(StrType) then TextColumn(conv, vals)
    else vals
  }

  function ValidatedColumns(conv: Conversions, fields: TableSchema, cols: Dict<seq<Value>>): Dict<seq<Value>>
  {
    seq(|cols|, p requires 0 <= p < |cols| =>
      match Lookup(fields, cols[p].0)
      case None => cols[p]
      case Some(rule) => (cols[p].0, ValidationColumn(conv, rule, cols[p].1)))
  }

  predicate Below(v: Value, bound: real) { v.Num? && v.n < bound }

  predicate Above(v: Value, bound: real) { v.Num? && v.n > bound }

  /** The characters for which Python's `str.isspace` holds, restricted to ASCII. */
  predicate IsSpace(c: char)
  {
    c == ' ' || (9 <= c as int <= 13) || (28 <= c as int <= 31)
  }

  /** `val == '' or val.isspace()`. */
  predicate BlankText(v: Value)
  {
    v.Str? && forall k :: 0 <= k < |v.s| ==> IsSpace(v.s[k])
  }

  function NumberMessage(name: string): string { name + " must be a valid number" }

  function EmptyMessage(name: string): string { name + " cannot be empty" }

  /** The row tests of the batch passes. */
  datatype RowTest = IsMissing | Under(bound: real) | Over(bound: real) | IsBlankText

  predicate Hits(test: RowTest, v: Value)
  {
    match test
    case IsMissing => v == Missing
    case Under(bound) => Below(v, bound)
    case Over(bound) => Above(v, bound)
    case IsBlankText => BlankText(v)
  }

  predicate AnyHit(test: RowTest, vals: seq<Value>)
  {
    exists k :: 0 <= k < |vals| && Hits(test, vals[k])
  }

  /** The message a coerced column leaves in the shared error map. The passes
      over the rows run in the order missing values, `min`, `max`, and each
      write replaces the previous one, so the last pass that fires wins. */
  function ColumnMessage(conv: Conversions, name: string, rule: Rule, vals: seq<Value>): Option<string>
  {
    if rule.ty == Some(FloatType) then
      if rule.max.Some? && AnyHit(Over(rule.max.value), vals) then Some(AtMostMessage(conv, name, rule.max.value))
      else if rule.min.Some? && AnyHit(Under(rule.min.value), vals) then Some(AtLeastMessage(conv, name, rule.min.value))
      else if rule.required && AnyHit(IsMissing, vals) then Some(NumberMessage(name))
      else None
    else if rule.ty == Some(StrType) then
      if rule.required && AnyHit(IsBlankText, vals) then Some(EmptyMessage(name))
      else None
    else None
  }

  /** The one error map every row of a batch shares. */
  function BatchErrors(conv: Conversions, fields: TableSchema, cols: Dict<seq<Value>>): Dict<string>
    decreases |fields|
  {
    if fields == [] then []
    else
      var prev := BatchErrors(conv, fields[..|fields| - 1], cols);
      var (name, rule) := fields[|fields| - 1];
      match Lookup(cols, name)
      case None => prev
      case Some(vals) => Recorded(prev, name, ColumnMessage(conv, name, rule, ValidationColumn(conv, rule, vals)))
  }

  lemma {:induction false} BatchErrorsKeys(conv: Conversions, fields: TableSchema, cols: Dict<seq<Value>>)
    requires UniqueKeys(fields)
    ensures forall k :: k in Keys(BatchErrors(conv, fields, cols)) ==> k in Keys(fields)
    ensures UniqueKeys(BatchErrors(conv, fields, cols))
    decreases |fields|
  {
    if fields != [] {
      var init := fields[..|fields| - 1];
      var prev := BatchErrors(conv, init, cols);
      BatchErrorsKeys(conv, init, cols);
      var name := fields[|fields| - 1].0;
      assert Keys(fields) == Keys(init) + [name];
      KeyNotBefore(fields, |fields| - 1);
      var e := BatchErrors(conv, fields, cols);
      if e != prev {
        var m := e[|e| - 1].1;
        assert e == prev + [(name, m)];
        AppendUnique(prev, name, m);
      }
    }
  }

  /** A batch without rows produces no message. */
  lemma {:induction false} NoRowsNoErrors(conv: Conversions, fields: TableSchema, df: Frame)
    requires WellFormed(df) && df.height == 0
    ensures BatchErrors(conv, fields, df.columns) == []
    decreases |fields|
  {
    if fields != [] {
      NoRowsNoErrors(conv, fields[..|fields| - 1], df);
      var name := fields[|fields| - 1].0;
      if name in Keys(df.columns) {
        var p := KeyIndex(df.columns, name);
        LookupAt(df.columns, p);
      }
    }
  }

  /** Writing `x` under `name` after a pass that may already have written there. */
  lemma PutRecorded(s: Dict<string>, name: string, m: Option<string>, x: string)
    requires UniqueKeys(s) && name !in Keys(s)
    ensures Put(Recorded(s, name, m), name, x) == Recorded(s, name, Some(x))
  {
    if m.Some? {
      PutTwiceAbsent(s, name, m.value, x);
    }
  }

  /** The result of validating a batch. */
  datatype BatchOutcome = BatchOutcome(frame: Frame, rowErrors: seq<Dict<string>>, hasErrors: bool)

  /** The error map after one more field. */
  lemma BatchErrorsStep(conv: Conversions, fields: TableSchema, cols: Dict<seq<Value>>, i: nat)
    requires i < |fields|
    ensures BatchErrors(conv, fields[..i + 1], cols)
            == match Lookup(cols, fields[i].0)
               case None => BatchErrors(conv, fields[..i], cols)
               case Some(vals) =>
                 var v := ValidationColumn(conv, fields[i].1, vals);
                 Recorded(BatchErrors(conv, fields[..i], cols), fields[i].0, ColumnMessage(conv, fields[i].0, fields[i].1, v))
  {
    assert fields[..i + 1][..i] == fields[..i];
  }

  /** What the column step of `ValidateDataframe` for field `i` relies on: the
      frame as it stands still holds the batch's column for that field, the
      field's column is there whenever the field is required, and the
      column's target is its converted form. */
  lemma BatchStep(conv: Conversions, fields: TableSchema, df: Frame, i: nat, cur: Dict<seq<Value>>)
    requires UniqueKeys(fields) && WellFormed(df) && i < |fields|
    requires MissingRequired(fields, df.columns) == []
    requires RewrittenUpTo(df.columns, ValidatedColumns(conv, fields, df.columns), Keys(fields[..i]), cur)
    ensures fields[..i + 1][..i] == fields[..i]
    ensures Keys(fields[..i + 1]) == Keys(fields[..i]) + [fields[i].0]
    ensures fields[i].0 !in Keys(fields[..i])
    ensures Lookup(cur, fields[i].0) == Lookup(df.columns, fields[i].0)
    ensures fields[i].1.required ==> fields[i].0 in Keys(df.columns)
    ensures forall p :: 0 <= p < |df.columns| && df.columns[p].0 == fields[i].0 ==>
              && Lookup(df.columns, fields[i].0) == Some(df.columns[p].1)
              && ValidatedColumns(conv, fields, df.columns)[p]
                 == (fields[i].0, ValidationColumn(conv, fields[i].1, df.columns[p].1))
  {
    var col := fields[i].0;
    assert Keys(fields[..i + 1]) == Keys(fields[..i]) + [col];
    KeyNotBefore(fields, i);
    LookupAt(fields, i);
    LookupAgree(df.columns, cur, col);
    if fields[i].1.required {
      assert col !in MissingRequired(fields, df.columns);
    }
    forall p | 0 <= p < |df.columns| && df.columns[p].0 == col
      ensures Lookup(df.columns, col) == Some(df.columns[p].1)
    {
      LookupAt(df.columns, p);
    }
  }

  /** The state of batch validation after the first `i` fields: their columns
      converted in place, and the shared error map holding their messages. */
  ghost predicate BatchUpTo(conv: Conversions, fields: TableSchema, df: Frame, i: nat,
                            cols: Dict<seq<Value>>, shared: Dict<string>, hasErrors: bool)
    requires i <= |fields|
  {
    && RewrittenUpTo(df.columns, ValidatedColumns(conv, fields, df.columns), Keys(fields[..i]), cols)
    && shared == BatchErrors(conv, fields[..i], df.columns)
    && (hasErrors <==> shared != [])
  }

  /** Validation keeps the batch's columns in place and its row count, and
      only schema columns are converted. */
  lemma ValidatedFrameShape(conv: Conversions, fields: TableSchema, df: Frame)
    requires WellFormed(df)
    ensures Keys(ValidatedColumns(conv, fields, df.columns)) == Keys(df.columns)
    ensures WellFormed(Frame(ValidatedColumns(conv, fields, df.columns), df.height))
    ensures forall p :: 0 <= p < |df.columns| && df.columns[p].0 !in Keys(fields) ==>
              ValidatedColumns(conv, fields, df.columns)[p] == df.columns[p]
  {
    var out := ValidatedColumns(conv, fields, df.columns);
    assert forall p :: 0 <= p < |out| ==> out[p].0 == df.columns[p].0;
    assert Keys(out) == Keys(df.columns);
  }

  /** A required text column whose cells are missing passes the blank check:
      the cast to text has already turned them into `"nan"`. */
  lemma MissingTextPassesBlankCheck(conv: Conversions, name: string, height: nat)
    requires height > 0
    ensures var rule := Rule(Some(StrType), true, None, None);
            var vals := ValidationColumn(conv, rule, seq(height, _ => Missing));
            && (forall k :: 0 <= k < height ==> vals[k] == Str(MissingText))
            && ColumnMessage(conv, name, rule, vals) == None
  {
    var rule := Rule(Some(StrType), true, None, None);
    var vals := ValidationColumn(conv, rule, seq(height, _ => Missing));
    forall k | 0 <= k < height ensures !Hits(IsBlankText, vals[k]) {
      assert vals[k] == Str(MissingText);
      assert !IsSpace(vals[k].s[0]);
    }
  }

  /* Per-row messages. Every row of `ValidateDataframe`'s result is the one
     shared map; the functions below give the messages of each row alone. */

  /** The message of one converted cell, with the priorities of the passes. */
  function CellMessage(conv: Conversions, name: string, rule: Rule, v: Value): Option<string>
  {
    if rule.ty == Some(FloatType) then
      if rule.max.Some? && Hits(Over(rule.max.value), v) then Some(AtMostMessage(conv, name, rule.max.value))
      else if rule.min.Some? && Hits(Under(rule.min.value), v) then Some(AtLeastMessage(conv, name, rule.min.value))
      else if rule.required && Hits(IsMissing, v) then Some(NumberMessage(name))
      else None
    else if rule.ty == Some(StrType) then
      if rule.required && Hits(IsBlankText, v) then Some(EmptyMessage(name))
      else None
    else None
  }

  /** The message of field `name` for row `row` alone, if the batch has its column. */
  function RowMessage(conv: Conversions, name: string, rule: Rule, cols: Dict<seq<Value>>, row: nat): Option<string>
  {
    match Lookup(cols, name)
    case None => None
    case Some(vals) =>
      if row < |vals| then CellMessage(conv, name, rule, ValidationColumn(conv, rule, vals)[row]) else None
  }

  /** The messages of row `row` only. */
  function RowErrors(conv: Conversions, fields: TableSchema, cols: Dict<seq<Value>>, row: nat): Dict<string>
    decreases |fields|
  {
    if fields == [] then []
    else
      var prev := RowErrors(conv, fields[..|fields| - 1], cols, row);
      var (name, rule) := fields[|fields| - 1];
      Recorded(prev, name, RowMessage(conv, name, rule, cols, row))
  }

  lemma {:induction false} RowErrorsKeys(conv: Conversions, fields: TableSchema, cols: Dict<seq<Value>>, row: nat)
    requires UniqueKeys(fields)
    ensures forall k :: k in Keys(RowErrors(conv, fields, cols, row)) ==> k in Keys(fields)
    ensures UniqueKeys(RowErrors(conv, fields, cols, row))
    decreases |fields|
  {
    if fields != [] {
      var init := fields[..|fields| - 1];
      var prev := RowErrors(conv, init, cols, row);
      RowErrorsKeys(conv, init, cols, row);
      var (name, rule) := fields[|fields| - 1];
      assert Keys(fields) == Keys(init) + [name];
      KeyNotBefore(fields, |fields| - 1);
      var m := RowMessage(conv, name, rule, cols, row);
      assert RowErrors(conv, fields, cols, row) == Recorded(prev, name, m);
      forall k | k in Keys(Recorded(prev, name, m)) ensures k in Keys(fields) {
        RecordedFresh(prev, name, m, k);
      }
      RecordedFresh(prev, name, m, name);
    }
  }

  /** The map of row `row` holds, under each schema field, the message of
      that row's own cell and nothing else: other rows cannot add to it. */
  lemma {:induction false} RowErrorsLookup(conv: Conversions, fields: TableSchema, cols: Dict<seq<Value>>, row: nat, i: nat)
    requires UniqueKeys(fields) && i < |fields|
    ensures Lookup(RowErrors(conv, fields, cols, row), fields[i].0) == RowMessage(conv, fields[i].0, fields[i].1, cols, row)
    decreases |fields|
  {
    var last := |fields| - 1;
    var init := fields[..last];
    var (name, rule) := fields[last];
    var prev := RowErrors(conv, init, cols, row);
    var m := RowMessage(conv, name, rule, cols, row);
    assert RowErrors(conv, fields, cols, row) == Recorded(prev, name, m);
    RowErrorsKeys(conv, init, cols, row);
    KeyNotBefore(fields, last);
    RecordedFresh(prev, name, m, fields[i].0);
    if i < last {
      RowErrorsLookup(conv, init, cols, row, i);
      assert init[i] == fields[i];
    }
  }

  /** A column leaves no message exactly when none of its cells has one. */
  lemma ColumnMessageClean(conv: Conversions, name: string, rule: Rule, vals: seq<Value>)
    ensures ColumnMessage(conv, name, rule, vals) == None
            <==> forall k :: 0 <= k < |vals| ==> CellMessage(conv, name, rule, vals[k]) == None
  {
    if ColumnMessage(conv, name, rule, vals) == None {
      forall k | 0 <= k < |vals| ensures CellMessage(conv, name, rule, vals[k]) == None {
        if rule.ty == Some(FloatType) {
          assert rule.max.Some? ==> !Hits(Over(rule.max.value), vals[k]);
          assert rule.min.Some? ==> !Hits(Under(rule.min.value), vals[k]);
        }
      }
    }
  }

  /** No row of the batch has a message of its own. */
  ghost predicate RowsClean(conv: Conversions, fields: TableSchema, df: Frame)
  {
    forall row :: 0 <= row < df.height ==> RowErrors(conv, fields, df.columns, row) == []
  }

  /** The shared map is empty exactly when every row's own map is: `has_errors`
      means the same for the shared map as for the per-row maps. */
  lemma {:induction false} BatchErrorsEmptyIff(conv: Conversions, fields: TableSchema, df: Frame)
    requires WellFormed(df)
    ensures BatchErrors(conv, fields, df.columns) == [] <==> RowsClean(conv, fields, df)
    decreases |fields|
  {
    if fields != [] {
      var init := fields[..|fields| - 1];
      BatchErrorsEmptyIff(conv, init, df);
      var (name, rule) := fields[|fields| - 1];
      match Lookup(df.columns, name)
      case None =>
        forall row ensures RowErrors(conv, fields, df.columns, row) == RowErrors(conv, init, df.columns, row) {
        }
      case Some(vals) =>
        var p := KeyIndex(df.columns, name);
        LookupAt(df.columns, p);
        var col := ValidationColumn(conv, rule, vals);
        ColumnMessageClean(conv, name, rule, col);
        forall row | 0 <= row < df.height
          ensures RowErrors(conv, fields, df.columns, row)
                  == Recorded(RowErrors(conv, init, df.columns, row), name, CellMessage(conv, name, rule, col[row]))
        {
        }
        if RowsClean(conv, fields, df) {
          forall row | 0 <= row < df.height
            ensures RowErrors(conv, init, df.columns, row) == [] && CellMessage(conv, name, rule, col[row]) == None
          {
          }
        }
        if BatchErrors(conv, fields, df.columns) == [] {
          forall row | 0 <= row < df.height ensures RowErrors(conv, fields, df.columns, row) == [] {
          }
        }
    }
  }

  /** The aliasing of the shared map, on a two-row batch whose first row is
      clean: the shared map, which `ValidateDataframe` returns for row 0, holds
      the message that belongs to row 1 only. */
  lemma SharedMapBlamesCleanRow(conv: Conversions)
    ensures var fields := [("commodity", Rule(Some(StrType), true, None, None))];
            var cols := [("commodity", [Str("Apple"), Str("")])];
            && BatchErrors(conv, fields, cols) == [("commodity", "commodity cannot be empty")]
            && RowErrors(conv, fields, cols, 0) == []
            && RowErrors(conv, fields, cols, 1) == [("commodity", "commodity cannot be empty")]
  {
    var rule := Rule(Some(StrType), true, None, None);
    var fields := [("commodity", rule)];
    var vals := [Str("Apple"), Str("")];
    var cols := [("commodity", vals)];
    assert fields[..0] == [];
    assert Lookup(cols, "commodity") == Some(vals);
    var text := ValidationColumn(conv, rule, vals);
    assert text == vals;
    assert Hits(IsBlankText, text[1]);
    assert AnyHit(IsBlankText, text);
    assert EmptyMessage("commodity") == "commodity cannot be empty";
    assert ColumnMessage(conv, "commodity", rule, text) == Some("commodity cannot be empty");
    assert BatchErrors(conv, fields, cols) == Recorded([], "commodity", Some("commodity cannot be empty"));
    assert !IsSpace(text[0].s[0]);
    assert !Hits(IsBlankText, text[0]);
  }

  /* ---------------------------------------------------------------------- */
  /* Preparing a batch for import                                           */
  /* ---------------------------------------------------------------------- */

  /** Selecting the listed columns, keeping the batch's column order. */
  function Project(cols: Dict<seq<Value>>, names: seq<string>): (r: Dict<seq<Value>>)
    ensures forall e :: e in r <==> e in cols && e.0 in names
    ensures UniqueKeys(cols) ==> UniqueKeys(r)
    ensures Subsequence(r, cols)
  {
    if cols == [] then []
    else
      var rest := Project(cols[1..], names);
      assert forall e :: e in cols <==> e == cols[0] || e in cols[1..];
      if cols[0].0 in names then
        assert UniqueKeys(cols) ==> UniqueKeys([cols[0]] + rest) by {
          if UniqueKeys(cols) {
            forall j | 0 <= j < |rest| ensures rest[j].0 != cols[0].0 {
              assert rest[j] in cols[1..];
              var m :| 0 <= m < |cols[1..]| && cols[1..][m] == rest[j];
              assert cols[m + 1] == rest[j];
            }
          }
        }
        assert ([cols[0]] + rest)[1..] == rest;
        [cols[0]] + rest
      else rest
  }

  /** Missing text becomes the empty string before the cast to text. */
  function FilledTextColumn(conv: Conversions, vals: seq<Value>): seq<Value>
  {
    seq(|vals|, k requires 0 <= k < |vals| => Str(if vals[k] == Missing then "" else CellText(conv, vals[k])))
  }

  function ImportColumn(conv: Conversions, rule: Rule, vals: seq<Value>): (r: seq<Value>)
    ensures |r| == |vals|
  {
    if rule.ty == Some(FloatType) then NumericColumn(conv, vals)
    else if rule.ty == Some(StrType) then FilledTextColumn(conv, vals)
    else vals
  }

  function ImportColumns(conv: Conversions, fields: TableSchema, cols: Dict<seq<Value>>): Dict<seq<Value>>
  {
    var kept := Project(cols, Keys(fields));
    seq(|kept|, p requires 0 <= p < |kept| =>
      match Lookup(fields, kept[p].0)
      case None => kept[p]
      case Some(rule) => (kept[p].0, ImportColumn(conv, rule, kept[p].1)))
  }

  /** One pass over the rows of column `col`: each row the test hits writes
      `message` under `col` in the shared error map and sets the error flag.
      `prior` is what earlier passes left under `col` on top of `base`. */
  method MarkRows(col: string, test: RowTest, message: string, vals: seq<Value>,
                  shared: Dict<string>, hasErrors: bool, ghost base: Dict<string>, ghost prior: Option<string>)
    returns (shared': Dict<string>, hasErrors': bool)
    requires UniqueKeys(base) && col !in Keys(base)
    requires shared == Recorded(base, col, prior) && (hasErrors <==> shared != [])
    ensures shared' == Recorded(base, col, if AnyHit(test, vals) then Some(message) else prior)
    ensures hasErrors' <==> shared' != []
  {
    shared', hasErrors' := shared, hasErrors;
    ghost var msg := prior;
    for j := 0 to |vals|
      invariant msg == if AnyHit(test, vals[..j]) then Some(message) else prior
      invariant shared' == Recorded(base, col, msg)
      invariant hasErrors' <==> shared' != []
    {
      AnyHitStep(test, vals, j);
      if Hits(test, vals[j]) {
        PutRecorded(base, col, msg, message);
        shared' := Put(shared', col, message);
        hasErrors' := true;
        msg := Some(message);
      }
    }
    assert vals[..|vals|] == vals;
  }

  lemma AnyHitStep(test: RowTest, vals: seq<Value>, j: nat)
    requires j < |vals|
    ensures AnyHit(test, vals[..j + 1]) <==> AnyHit(test, vals[..j]) || Hits(test, vals[j])
  {
    if AnyHit(test, vals[..j + 1]) && !Hits(test, vals[j]) {
      var k :| 0 <= k < j + 1 && Hits(test, vals[..j + 1][k]);
      assert vals[..j][k] == vals[k];
    }
    if AnyHit(test, vals[..j]) {
      var k :| 0 <= k < j && Hits(test, vals[..j][k]);
      assert vals[..j + 1][k] == vals[k];
    }
    if Hits(test, vals[j]) {
      assert vals[..j + 1][j] == vals[j];
    }
  }

  /** What the column step of `CleanDataframeForImport` for field `i` relies
      on, as `BatchStep` does for validation. */
  lemma ImportStep(conv: Conversions, fields: TableSchema, df: Frame, i: nat, cur: Dict<seq<Value>>)
    requires UniqueKeys(fields) && WellFormed(df) && i < |fields|
    requires RewrittenUpTo(Project(df.columns, Keys(fields)), ImportColumns(conv, fields, df.columns),
                           Keys(fields[..i]), cur)
    ensures UniqueKeys(Project(df.columns, Keys(fields)))
    ensures Keys(fields[..i + 1]) == Keys(fields[..i]) + [fields[i].0]
    ensures fields[i].0 !in Keys(fields[..i])
    ensures Lookup(cur, fields[i].0) == Lookup(Project(df.columns, Keys(fields)), fields[i].0)
    ensures var kept := Project(df.columns, Keys(fields));
            forall p :: 0 <= p < |kept| && kept[p].0 == fields[i].0 ==>
              && Lookup(kept, fields[i].0) == Some(kept[p].1)
              && ImportColumns(conv, fields, df.columns)[p] == (fields[i].0, ImportColumn(conv, fields[i].1, kept[p].1))
  {
    var col := fields[i].0;
    var kept := Project(df.columns, Keys(fields));
    assert Keys(fields[..i + 1]) == Keys(fields[..i]) + [col];
    KeyNotBefore(fields, i);
    LookupAt(fields, i);
    LookupAgree(kept, cur, col);
    forall p | 0 <= p < |kept| && kept[p].0 == col
      ensures Lookup(kept, col) == Some(kept[p].1)
    {
      LookupAt(kept, p);
    }
  }

  /** One step of `CleanDataframeForImport`: field `i`'s column, when the
      batch has it, is converted for a float or text field. */
  method ImportField(conv: Conversions, fields: TableSchema, df: Frame, i: nat, columns: Dict<seq<Value>>)
    returns (next: Dict<seq<Value>>)
    requires UniqueKeys(fields) && WellFormed(df) && i < |fields|
    requires RewrittenUpTo(Project(df.columns, Keys(fields)), ImportColumns(conv, fields, df.columns),
                           Keys(fields[..i]), columns)
    ensures RewrittenUpTo(Project(df.columns, Keys(fields)), ImportColumns(conv, fields, df.columns),
                          Keys(fields[..i + 1]), next)
  {
    var kept := Project(df.columns, Keys(fields));
    ghost var target := ImportColumns(conv, fields, df.columns);
    var (col, rules) := fields[i];
    ImportStep(conv, fields, df, i, columns);
    var current := Lookup(columns, col);
    if current.Some? && rules.ty == Some(FloatType) {
      var vals := NumericColumn(conv, current.value);
      RewriteStep(kept, target, Keys(fields[..i]), columns, col, vals);
      next := Put(columns, col, vals);
    } else if current.Some? && rules.ty == Some(StrType) {
      var vals := FilledTextColumn(conv, current.value);
      RewriteStep(kept, target, Keys(fields[..i]), columns, col, vals);
      next := Put(columns, col, vals);
    } else {
      SkipStep(kept, target, Keys(fields[..i]), columns, col);
      next := columns;
    }
  }

  /** What an imported cell may hold: text in a text column (never missing),
      a number or missing in a float column. */
  predicate ImportedCell(rule: Option<Rule>, v: Value)
  {
    rule.Some? ==>
      && (rule.value.ty == Some(StrType) ==> v.Str?)
      && (rule.value.ty == Some(FloatType) ==> v.Missing? || v.Num?)
  }

  /** The names of a projection are the chosen names the batch has. */
  lemma ProjectKeys(cols: Dict<seq<Value>>, names: seq<string>)
    ensures forall k :: k in Keys(Project(cols, names)) <==> k in names && k in Keys(cols)
  {
    var kept := Project(cols, names);
    forall k ensures k in Keys(kept) <==> k in names && k in Keys(cols) {
      if k in Keys(kept) {
        var p := KeyIndex(kept, k);
        assert kept[p] in kept;
        var i :| 0 <= i < |cols| && cols[i] == kept[p];
        assert Keys(cols)[i] == k;
      }
      if k in names && k in Keys(cols) {
        var p := KeyIndex(cols, k);
        assert cols[p] in kept;
        var q :| 0 <= q < |kept| && kept[q] == cols[p];
        assert Keys(kept)[q] == k;
      }
    }
  }

  /** Importing converts columns in place: the kept columns keep their names
      and lengths. */
  lemma ImportedKeys(conv: Conversions, fields: TableSchema, cols: Dict<seq<Value>>)
    ensures var (kept, out) := (Project(cols, Keys(fields)), ImportColumns(conv, fields, cols));
            && Keys(out) == Keys(kept)
            && forall p :: 0 <= p < |out| ==> out[p].0 == kept[p].0 && |out[p].1| == |kept[p].1|
  {
    var (kept, out) := (Project(cols, Keys(fields)), ImportColumns(conv, fields, cols));
    assert forall p :: 0 <= p < |out| ==> out[p].0 == kept[p].0 && |out[p].1| == |kept[p].1|;
  }

  /** The imported batch keeps exactly the schema's columns that the batch
      has, in the batch's order, and every row. */
  lemma ImportedFrameShape(conv: Conversions, fields: TableSchema, df: Frame)
    requires WellFormed(df)
    ensures var out := ImportColumns(conv, fields, df.columns);
            && WellFormed(Frame(out, df.height))
            && (forall k :: k in Keys(out) <==> k in Keys(fields) && k in Keys(df.columns))
            && Subsequence(Keys(out), Keys(df.columns))
  {
    var kept := Project(df.columns, Keys(fields));
    var out := ImportColumns(conv, fields, df.columns);
    ImportedKeys(conv, fields, df.columns);
    forall p | 0 <= p < |kept| ensures |kept[p].1| == df.height {
      assert kept[p] in kept;
    }
    ProjectKeys(df.columns, Keys(fields));
    KeysSubsequence(kept, df.columns);
  }

  /** After import, text columns hold no missing cell and float columns no
      text. */
  lemma ImportedCellTypes(conv: Conversions, fields: TableSchema, df: Frame)
    ensures var out := ImportColumns(conv, fields, df.columns);
            forall p, j :: 0 <= p < |out| && 0 <= j < |out[p].1| ==> ImportedCell(Lookup(fields, out[p].0), out[p].1[j])
  {
    var kept := Project(df.columns, Keys(fields));
    var out := ImportColumns(conv, fields, df.columns);
    forall p, j | 0 <= p < |out| && 0 <= j < |out[p].1|
      ensures ImportedCell(Lookup(fields, out[p].0), out[p].1[j])
    {
      assert out[p].0 == kept[p].0;
    }
  }

  /* ---------------------------------------------------------------------- */
  /* The validator                                                          */
  /* ---------------------------------------------------------------------- */

  class SchemaValidator {
    const schemas: Schemas
    const conv: Conversions

    ghost predicate Valid()
    {
      WellFormedSchemas(schemas)
    }

    /** `source` is the parsed configuration, or `None` when the file is
        missing, unreadable or of an unsupported kind. */
    constructor (source: Option<RawSchemas>, conv: Conversions)
      requires source.Some? ==> forall t :: t in source.value ==> UniqueKeys(source.value[t])
      ensures schemas == LoadSchema(source) && this.conv == conv
      ensures Valid()
    {
      schemas := LoadSchema(source);
      this.conv := conv;
      LoadedSchemaWellFormed(source);
    }

    /** The body of the per-field loop of `ValidateRecord`: the required
        check, the conversion and the bound checks of one field against the
        record as it stands. */
    method CheckRecordField(field: string, rules: Rule, rec: Dict<Value>, errors: Dict<string>)
      returns (rec': Dict<Value>, errors': Dict<string>)
      requires UniqueKeys(rec) && UniqueKeys(errors) && field !in Keys(errors)
      ensures var c := CheckField(conv, field, rules, Lookup(rec, field));
              && errors' == Recorded(errors, field, c.error)
              && rec' == if c.after.Some? then Put(rec, field, c.after.value) else rec
    {
      rec', errors' := rec, errors;
      var value := Lookup(rec, field);
      if value.Some? {
        var p := KeyIndex(rec, field);
        LookupAt(rec, p);
        PutAt(rec, p, value.value);
        assert rec[p := (field, value.value)] == rec;
      }
      if rules.required && IsBlank(value) {
        errors' := Put(errors', field, field + " is required");
        return;
      }
      if IsBlank(value) {
        return;
      }
      var c := Coerce(conv, rules.ty, value.value);
      if c.Invalid? {
        errors' := Put(errors', field, field + " must be a valid " + c.typeName);
        return;
      }
      var cur := value.value;
      if c.Coerced? {
        rec' := Put(rec', field, c.value);
        cur := c.value;
      }
      if IsNumericType(rules.ty) && cur.Num? {
        if rules.min.Some? && cur.n < rules.min.value {
          errors' := Put(errors', field, AtLeastMessage(conv, field, rules.min.value));
        }
        if rules.max.Some? && cur.n > rules.max.value {
          if errors' != errors {
            PutTwiceAbsent(errors, field, AtLeastMessage(conv, field, rules.min.value), AtMostMessage(conv, field, rules.max.value));
          }
          errors' := Put(errors', field, AtMostMessage(conv, field, rules.max.value));
        }
      }
    }

    method ValidateRecord(table: string, record: Dict<Value>) returns (r: Result<RecordOutcome, SchemaError>)
      requires Valid() && UniqueKeys(record)
      ensures table !in schemas <==> r.Failure?
      ensures r.Failure? ==> r.error == UnknownTable(table)
      ensures r.Success? ==> r.value.record == CoercedRecord(conv, schemas[table], record)
      ensures r.Success? ==> r.value.errors == FieldErrors(conv, schemas[table], record)
    {
      if table !in schemas {
        return Failure(UnknownTable(table));
      }
      var schema := schemas[table];
      var rec := record;
      var errors: Dict<string> := [];
      var i := 0;
      while i < |schema|
        invariant 0 <= i <= |schema|
        invariant errors == FieldErrors(conv, schema[..i], record)
        invariant CoercedUpTo(conv, schema, record, i, rec)
      {
        var field := schema[i].0;
        assert schema[..i + 1][..i] == schema[..i];
        KeyNotBefore(schema, i);
        FieldErrorsKeys(conv, schema[..i], record);
        LookupAgree(record, rec, field);
        ghost var before := rec;
        rec, errors := CheckRecordField(field, schema[i].1, rec, errors);
        CoercedUpToStep(conv, schema, record, i, before, rec);
        i := i + 1;
      }
      assert schema[..|schema|] == schema;
      assert rec == CoercedRecord(conv, schema, record);
      r := Success(RecordOutcome(rec, errors));
    }

    /** The passes over a float column already converted by `to_numeric`:
        missing values when the field is required, then `min`, then `max`. */
    method CheckFloatColumn(col: string, rules: Rule, vals: seq<Value>, shared: Dict<string>, hasErrors: bool)
      returns (shared': Dict<string>, hasErrors': bool)
      requires rules.ty == Some(FloatType)
      requires UniqueKeys(shared) && col !in Keys(shared) && (hasErrors <==> shared != [])
      ensures shared' == Recorded(shared, col, ColumnMessage(conv, col, rules, vals))
      ensures hasErrors' <==> shared' != []
    {
      shared', hasErrors' := shared, hasErrors;
      ghost var msg: Option<string> := None;
      if rules.required {
        shared', hasErrors' := MarkRows(col, IsMissing, NumberMessage(col), vals, shared', hasErrors', shared, msg);
        msg := if AnyHit(IsMissing, vals) then Some(NumberMessage(col)) else msg;
      }
      if rules.min.Some? {
        var lo := rules.min.value;
        shared', hasErrors' := MarkRows(col, Under(lo), AtLeastMessage(conv, col, lo), vals, shared', hasErrors', shared, msg);
        msg := if AnyHit(Under(lo), vals) then Some(AtLeastMessage(conv, col, lo)) else msg;
      }
      if rules.max.Some? {
        var hi := rules.max.value;
        shared', hasErrors' := MarkRows(col, Over(hi), AtMostMessage(conv, col, hi), vals, shared', hasErrors', shared, msg);
        msg := if AnyHit(Over(hi), vals) then Some(AtMostMessage(conv, col, hi)) else msg;
      }
    }

    /** The pass over a text column already cast to text: when the field is
        required, blank cells are errors. */
    method CheckTextColumn(col: string, rules: Rule, vals: seq<Value>, shared: Dict<string>, hasErrors: bool)
      returns (shared': Dict<string>, hasErrors': bool)
      requires rules.ty == Some(StrType)
      requires UniqueKeys(shared) && col !in Keys(shared) && (hasErrors <==> shared != [])
      ensures shared' == Recorded(shared, col, ColumnMessage(conv, col, rules, vals))
      ensures hasErrors' <==> shared' != []
    {
      shared', hasErrors' := shared, hasErrors;
      if rules.required {
        shared', hasErrors' := MarkRows(col, IsBlankText, EmptyMessage(col), vals, shared', hasErrors', shared, None);
      }
    }

    /** One step of the column loop of `ValidateDataframe`: converts the
        column of field `i`, when the batch has it, and runs its passes. */
    method ValidateColumn(schema: TableSchema, df: Frame, i: nat, columns: Dict<seq<Value>>,
                          shared: Dict<string>, hasErrors: bool)
      returns (columns': Dict<seq<Value>>, shared': Dict<string>, hasErrors': bool)
      requires UniqueKeys(schema) && WellFormed(df) && i < |schema|
      requires MissingRequired(schema, df.columns) == []
      requires BatchUpTo(conv, schema, df, i, columns, shared, hasErrors)
      ensures BatchUpTo(conv, schema, df, i + 1, columns', shared', hasErrors')
    {
      var col := schema[i].0;
      var rules := schema[i].1;
      ghost var target := ValidatedColumns(conv, schema, df.columns);
      ghost var names := Keys(schema[..i]);
      BatchStep(conv, schema, df, i, columns);
      BatchErrorsStep(conv, schema, df.columns, i);
      BatchErrorsKeys(conv, schema[..i], df.columns);
      columns', shared', hasErrors' := columns, shared, hasErrors;
      var current := Lookup(columns, col);
      if current.None? {
        // required columns were all found before the loop
        if rules.required {
          assert false;
        }
        SkipStep(df.columns, target, names, columns, col);
      } else if rules.ty == Some(FloatType) {
        var vals := NumericColumn(conv, current.value);
        RewriteStep(df.columns, target, names, columns, col, vals);
        columns' := Put(columns, col, vals);
        shared', hasErrors' := CheckFloatColumn(col, rules, vals, shared, hasErrors);
      } else if rules.ty == Some(StrType) {
        var vals := TextColumn(conv, current.value);
        RewriteStep(df.columns, target, names, columns, col, vals);
        columns' := Put(columns, col, vals);
        shared', hasErrors' := CheckTextColumn(col, rules, vals, shared, hasErrors);
      } else {
        SkipStep(df.columns, target, names, columns, col);
      }
    }

    /** Validates a batch column by column. Every row of `rowErrors` is the
        same map (the source builds the list by repeating one dictionary), so
        each row reports every message of the batch; see `RowErrors` for the
        per-row messages evidently intended. */
    method ValidateDataframe(table: string, df: Frame) returns (r: Result<BatchOutcome, SchemaError>)
      requires Valid() && WellFormed(df)
      ensures table !in schemas ==> r == Failure(UnknownTable(table))
      ensures table in schemas ==>
                (r.Failure? <==> MissingRequired(schemas[table], df.columns) != [])
      ensures table in schemas && r.Failure? ==> r.error == MissingColumns(MissingRequired(schemas[table], df.columns))
      ensures r.Success? ==> r.value.frame == Frame(ValidatedColumns(conv, schemas[table], df.columns), df.height)
      ensures r.Success? ==> |r.value.rowErrors| == df.height
      ensures r.Success? ==>
                forall i :: 0 <= i < df.height ==> r.value.rowErrors[i] == BatchErrors(conv, schemas[table], df.columns)
      ensures r.Success? ==>
                (r.value.hasErrors <==> exists i :: 0 <= i < |r.value.rowErrors| && r.value.rowErrors[i] != [])
    {
      if table !in schemas {
        return Failure(UnknownTable(table));
      }
      var schema := schemas[table];
      var validated := df;
      var missing := MissingRequired(schema, validated.columns);
      if missing != [] {
        return Failure(MissingColumns(missing));
      }
      var shared: Dict<string> := [];
      var hasErrors := false;
      var i := 0;
      while i < |schema|
        invariant 0 <= i <= |schema|
        invariant validated.height == df.height
        invariant BatchUpTo(conv, schema, df, i, validated.columns, shared, hasErrors)
      {
        var columns;
        columns, shared, hasErrors := ValidateColumn(schema, df, i, validated.columns, shared, hasErrors);
        validated := validated.(columns := columns);
        i := i + 1;
      }
      assert schema[..|schema|] == schema;
      RewriteDone(df.columns, ValidatedColumns(conv, schema, df.columns), Keys(schema), validated.columns);
      if df.height == 0 {
        NoRowsNoErrors(conv, schema, df);
      }
      var rowErrors := seq(validated.height, _ => shared);
      if df.height > 0 {
        assert rowErrors[0] == shared;
      }
      r := Success(BatchOutcome(validated, rowErrors, hasErrors));
    }

    /** Prepares a batch for import: keeps only the schema's columns, in the
        batch's order, converts float columns to numbers (what does not parse
        becomes missing) and text columns to text with missing cells emptied. */
    method CleanDataframeForImport(table: string, df: Frame) returns (r: Result<Frame, SchemaError>)
      requires Valid() && WellFormed(df)
      ensures table !in schemas <==> r.Failure?
      ensures r.Failure? ==> r.error == UnknownTable(table)
      ensures r.Success? ==> r.value == Frame(ImportColumns(conv, schemas[table], df.columns), df.height)
    {
      if table !in schemas {
        return Failure(UnknownTable(table));
      }
      var schema := schemas[table];
      var kept := Project(df.columns, Keys(schema));
      ghost var target := ImportColumns(conv, schema, df.columns);
      var columns := kept;
      for i := 0 to |schema|
        invariant RewrittenUpTo(kept, target, Keys(schema[..i]), columns)
      {
        columns := ImportField(conv, schema, df, i, columns);
      }
      assert schema[..|schema|] == schema;
      assert forall p :: 0 <= p < |kept| ==> kept[p] in kept;
      RewriteDone(kept, target, Keys(schema), columns);
      r := Success(Frame(columns, df.height));
    }
  }
}
