/** Binding a predicate over column names to the fields of a table schema. */
module Binding {
  import opened Common
  import opened Predicates

  /** The integer types differ in their range only. */
  datatype ColumnType = Integral(least: int, greatest: int) | Floating | Textual

  datatype Field = Field(id: int, required: bool, columnType: ColumnType)

  /** Lookup by name, with or without regard to case. */
  type Schema = string -> Option<Field>

  // ----- literals -----

  datatype Converted = Within | AboveMax | BelowMin | Inconvertible

  /** A literal of another width keeps its value, or turns out to be beyond the range of the column. */
  function Convert(d: Datum, t: ColumnType): Converted {
    match (d, t)
    case (Num(n), Integral(least, greatest)) =>
      if n > greatest then AboveMax else if n < least then BelowMin else Within
    case (Num(_), Floating) => Within
    case (NaN, Floating) => Within
    case (Text(_), Textual) => Within
    case _ => Inconvertible
  }

  /** A column can hold the value. */
  ghost predicate CanHold(t: ColumnType, d: Datum) {
    match t
    case Integral(least, greatest) => d.Num? && least <= d.n <= greatest
    case Floating => d.Num? || d.NaN?
    case Textual => d.Text?
  }

  /** It is a whole number, but not one that the column can hold. */
  ghost predicate BeyondRange(t: ColumnType, d: Datum) {
    t.Integral? && d.Num? && (d.n < t.least || d.n > t.greatest)
  }

  /** A conversion keeps exactly what the column can hold, and fails on exactly what is of another kind. */
  lemma ConvertExact(d: Datum, t: ColumnType)
    ensures Convert(d, t).Within? <==> CanHold(t, d)
    ensures Convert(d, t).Inconvertible? <==> !CanHold(t, d) && !BeyondRange(t, d)
    ensures Convert(d, t).AboveMax? <==> t.Integral? && d.Num? && d.n > t.greatest
    ensures Convert(d, t).BelowMin? ==> t.Integral? && d.Num? && d.n < t.least
  {
  }

  /** What a comparison with a literal beyond the range comes to, if it is decided. */
  function Decided(op: BinaryOp, converted: Converted): Option<bool> {
    if converted.Within? || converted.Inconvertible? || op.StartsWith? || op.NotStartsWith? then None
    else if op.NotEq? then Some(true)
    else if op.Eq? then Some(false)
    else Some((op.LessThan? || op.LessThanOrEq?) == converted.AboveMax?)
  }

  // ----- binding -----

  function Truth(b: bool): BoundPredicate {
    if b then AlwaysTrue else AlwaysFalse
  }

  function MkNot(p: BoundPredicate): BoundPredicate {
    if p.AlwaysTrue? then AlwaysFalse else if p.AlwaysFalse? then AlwaysTrue else Not(p)
  }

  function Join(l: Result<BoundPredicate>, r: Result<BoundPredicate>,
                join: (BoundPredicate, BoundPredicate) -> BoundPredicate): Result<BoundPredicate> {
    if l.Err? then l else if r.Err? then r else Ok(join(l.value, r.value))
  }

  function BindUnary(op: UnaryOp, field: Field): Result<BoundPredicate> {
    match op
    case IsNull => Ok(if field.required then AlwaysFalse else Unary(op, field.id))
    case NotNull => Ok(if field.required then AlwaysTrue else Unary(op, field.id))
    case _ => if field.columnType.Floating? then Ok(Unary(op, field.id)) else Err(DataInvalid)
  }

  function BindBinary(op: BinaryOp, field: Field, literal: Datum): Result<BoundPredicate> {
    var converted := Convert(literal, field.columnType);
    if converted.Inconvertible? then Err(DataInvalid)
    else
      var decided := Decided(op, converted);
      Ok(if decided.Some? then Truth(decided.value) else Binary(op, field.id, literal))
  }

  predicate AllWithin(literals: seq<Datum>, t: ColumnType) {
    literals == [] || (Convert(literals[0], t).Within? && AllWithin(literals[1..], t))
  }

  function BindSet(op: SetOp, field: Field, literals: seq<Datum>): Result<BoundPredicate> {
    if !AllWithin(literals, field.columnType) then Err(DataInvalid)
    else if literals == [] then Ok(Truth(op.NotIn?))
    else if |literals| == 1 then Ok(Binary(if op.In? then Eq else NotEq, field.id, literals[0]))
    else Ok(Set(op, field.id, literals))
  }

  function Bind(p: Predicate<string>, schema: Schema): Result<BoundPredicate> {
    match p
    case AlwaysTrue => Ok(AlwaysTrue)
    case AlwaysFalse => Ok(AlwaysFalse)
    case And(l, r) => Join(Bind(l, schema), Bind(r, schema), (a, b) => MkAnd(a, b))
    case Or(l, r) => Join(Bind(l, schema), Bind(r, schema), (a, b) => MkOr(a, b))
    case Not(q) =>
      var inner := Bind(q, schema);
      if inner.Err? then inner else Ok(MkNot(inner.value))
    case Unary(op, name) => if schema(name).None? then Err(DataInvalid) else BindUnary(op, schema(name).value)
    case Binary(op, name, d) => if schema(name).None? then Err(DataInvalid) else BindBinary(op, schema(name).value, d)
    case Set(op, name, ds) => if schema(name).None? then Err(DataInvalid) else BindSet(op, schema(name).value, ds)
  }

  // ----- what binding keeps -----

  /** A row of field cells that the schema allows. */
  ghost predicate Conforms(schema: Schema, row: int -> Option<Datum>) {
    forall name :: schema(name).Some? ==> CellConforms(schema(name).value, row)
  }

  ghost predicate CellConforms(field: Field, row: int -> Option<Datum>) {
    && (field.required ==> row(field.id).Some?)
    && (row(field.id).Some? ==> CanHold(field.columnType, row(field.id).value))
  }

  /** The row by name. */
  function Named(schema: Schema, row: int -> Option<Datum>): string -> Option<Datum> {
    name => if schema(name).Some? then row(schema(name).value.id) else None
  }

  /** A comparison with a literal beyond the range of its column, on a null cell. */
  ghost predicate DecidedOnNull(p: Predicate<string>, schema: Schema, row: int -> Option<Datum>) {
    && p.Binary? && schema(p.term).Some?
    && BeyondRange(schema(p.term).value.columnType, p.literal) && !p.binaryOp.StartsWith? && !p.binaryOp.NotStartsWith?
    && Named(schema, row)(p.term).None?
  }

  /** No leaf is decided on a null cell. */
  ghost predicate NoneDecidedOnNull(p: Predicate<string>, schema: Schema, row: int -> Option<Datum>) {
    match p
    case And(l, r) => NoneDecidedOnNull(l, schema, row) && NoneDecidedOnNull(r, schema, row)
    case Or(l, r) => NoneDecidedOnNull(l, schema, row) && NoneDecidedOnNull(r, schema, row)
    case Not(q) => NoneDecidedOnNull(q, schema, row)
    case _ => !DecidedOnNull(p, schema, row)
  }

  /** Binding a leaf keeps its meaning on a row the schema allows, except on exactly the null cells that a literal
      beyond the range decides: there unknown turns into true or false. */
  lemma BindLeafExact(p: Predicate<string>, schema: Schema, row: int -> Option<Datum>)
    requires p.Unary? || p.Binary? || p.Set?
    requires Bind(p, schema).Ok? && Conforms(schema, row)
    ensures Meaning(Bind(p, schema).value, row, Kleene) == Meaning(p, Named(schema, row), Kleene)
       <==> !DecidedOnNull(p, schema, row)
  {
    assert CellConforms(schema(p.term).value, row);
  }

  lemma MkNotMeaning(p: BoundPredicate, row: int -> Option<Datum>)
    ensures Meaning(MkNot(p), row, Kleene) == KleeneNot(Meaning(p, row, Kleene))
  {
  }

  /** Binding, simplifications included, keeps the three-valued meaning where no leaf is decided on a null cell. */
  lemma {:induction false} BindMeaning(p: Predicate<string>, schema: Schema, row: int -> Option<Datum>)
    requires Bind(p, schema).Ok? && Conforms(schema, row) && NoneDecidedOnNull(p, schema, row)
    ensures Meaning(Bind(p, schema).value, row, Kleene) == Meaning(p, Named(schema, row), Kleene)
  {
    match p
    case AlwaysTrue =>
    case AlwaysFalse =>
    case And(l, r) =>
      BindMeaning(l, schema, row);
      BindMeaning(r, schema, row);
      MkAndMeaning(Bind(l, schema).value, Bind(r, schema).value, row, Kleene);
    case Or(l, r) =>
      BindMeaning(l, schema, row);
      BindMeaning(r, schema, row);
      MkOrMeaning(Bind(l, schema).value, Bind(r, schema).value, row, Kleene);
    case Not(q) =>
      BindMeaning(q, schema, row);
      MkNotMeaning(Bind(q, schema).value, row);
    case _ =>
      BindLeafExact(p, schema, row);
  }

  /** `x < 2^40` on a 32-bit column binds to AlwaysTrue, and so keeps the rows where x is null. */
  lemma NullPassesBoundComparison()
    ensures var schema: Schema := (name: string) => Some(Field(1, false, Integral(-0x8000_0000, 0x7fff_ffff)));
            var row: int -> Option<Datum> := (id: int) => None;
            && Bind(Binary(LessThan, "x", Num(0x100_0000_0000)), schema) == Ok(AlwaysTrue)
            && Meaning(Binary(LessThan, "x", Num(0x100_0000_0000)), Named(schema, row), Kleene) == None
  {
  }

  /** Every leaf names a field of the schema that its test and its literals suit. */
  ghost predicate Bindable(p: Predicate<string>, schema: Schema) {
    match p
    case AlwaysTrue => true
    case AlwaysFalse => true
    case And(l, r) => Bindable(l, schema) && Bindable(r, schema)
    case Or(l, r) => Bindable(l, schema) && Bindable(r, schema)
    case Not(q) => Bindable(q, schema)
    case Unary(op, name) => schema(name).Some? && (op.IsNan? || op.NotNan? ==> schema(name).value.columnType.Floating?)
    case Binary(_, name, d) =>
      schema(name).Some? && (CanHold(schema(name).value.columnType, d) || BeyondRange(schema(name).value.columnType, d))
    case Set(_, name, ds) => schema(name).Some? && forall d :: d in ds ==> CanHold(schema(name).value.columnType, d)
  }

  lemma {:induction false} AllWithinMeans(literals: seq<Datum>, t: ColumnType)
    ensures AllWithin(literals, t) <==> forall d :: d in literals ==> CanHold(t, d)
  {
    if literals != [] {
      ConvertExact(literals[0], t);
      AllWithinMeans(literals[1..], t);
      assert literals == [literals[0]] + literals[1..];
    }
  }

  /** Binding fails exactly on an unknown column, a NaN test on a column that is not floating, or a literal of the wrong
      kind. */
  lemma {:induction false} BindSucceeds(p: Predicate<string>, schema: Schema)
    ensures Bind(p, schema).Ok? <==> Bindable(p, schema)
    ensures Bind(p, schema).Err? ==> Bind(p, schema).error == DataInvalid
  {
    match p
    case And(l, r) =>
      BindSucceeds(l, schema);
      BindSucceeds(r, schema);
    case Or(l, r) =>
      BindSucceeds(l, schema);
      BindSucceeds(r, schema);
    case Not(q) =>
      BindSucceeds(q, schema);
    case Set(_, name, ds) =>
      if schema(name).Some? {
        AllWithinMeans(ds, schema(name).value.columnType);
      }
    case _ =>
  }
}
