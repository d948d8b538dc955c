/** A bound predicate compiled to a filter over the projected columns of a record batch. */
module RowFilter {
  import opened Common
  import opened Predicates
  import opened FieldIds

  /** Every field id a predicate refers to. */
  function FieldIdsOf(p: BoundPredicate): set<int> {
    match p
    case And(l, r) => FieldIdsOf(l) + FieldIdsOf(r)
    case Or(l, r) => FieldIdsOf(l) + FieldIdsOf(r)
    case Not(q) => FieldIdsOf(q)
    case Unary(_, id) => {id}
    case Binary(_, id, _) => {id}
    case Set(_, id, _) => {id}
    case _ => {}
  }

  /** Column `i` is the column of one of the ids. */
  ghost predicate Required(ids: seq<int>, columnMap: map<int, nat>, i: nat) {
    exists id :: id in ids && id in columnMap && columnMap[id] == i
  }

  /** `walk` lists the hash set of ids once each, in whatever order it iterates; the outcome is the same. */
  method ColumnIndices(walk: seq<int>, columnMap: map<int, nat>) returns (indices: seq<nat>)
    requires Injective(columnMap)
    requires forall i, j :: 0 <= i < j < |walk| ==> walk[i] != walk[j]
    ensures Ascending(indices)
    ensures forall i: nat :: i in indices <==> Required(walk, columnMap, i)
  {
    indices := [];
    for k := 0 to |walk|
      invariant Ascending(indices)
      invariant forall i: nat :: i in indices <==> Required(walk[..k], columnMap, i)
    {
      var id := walk[k];
      assert walk[..k + 1] == walk[..k] + [id];
      if id in columnMap {
        assert !Required(walk[..k], columnMap, columnMap[id]);
        InsertAscending(indices, columnMap[id]);
        indices := Insert(indices, columnMap[id]);
      }
      RequiredSnoc(walk[..k], id, columnMap);
    }
    assert walk[..|walk|] == walk;
  }

  lemma RequiredSnoc(seen: seq<int>, id: int, columnMap: map<int, nat>)
    ensures forall i: nat :: Required(seen + [id], columnMap, i)
                        <==> Required(seen, columnMap, i) || (id in columnMap && columnMap[id] == i)
  {
    assert forall x :: x in seen + [id] <==> x in seen || x == id;
  }

  /** Insertion into a sorted list, which keeps equal elements. */
  function Insert(s: seq<nat>, x: nat): seq<nat> {
    if s == [] || x <= s[0] then [x] + s else [s[0]] + Insert(s[1..], x)
  }

  lemma {:induction false} InsertAscending(s: seq<nat>, x: nat)
    requires Ascending(s)
    ensures forall p :: p in Insert(s, x) <==> p in s || p == x
    ensures x !in s ==> Ascending(Insert(s, x))
  {
    if s != [] && s[0] < x {
      InsertAscending(s[1..], x);
      assert s == [s[0]] + s[1..];
      if x !in s {
        ConsAscends(s[0], Insert(s[1..], x));
      }
    } else if s != [] && x !in s {
      assert s[0] in s;
      ConsAscends(x, s);
    }
  }

  // ----- compilation -----

  /** What a compiled closure does with the projected columns. */
  datatype Kernel =
    | KConst(value: bool)
    | KAnd(left: Kernel, right: Kernel)
    | KOr(left: Kernel, right: Kernel)
    | KNot(inner: Kernel)
    | KIsNull(column: nat)
    | KIsNotNull(column: nat)
    | KCompare(op: BinaryOp, column: nat, literal: Datum)
    | KInIntegers(column: nat, integers: set<int>)
    | KOrEqual(column: nat, literals: seq<Datum>)
    | KAndNotEqual(column: nat, literals: seq<Datum>)

  datatype Compiled = Compiled(kernel: Kernel) | NestedColumn | ColumnNotFound

  datatype Reference = At(position: nat) | Absent | Nested | NotFound

  /** The converter's tables: field id to leaf column, the leaf columns, and the required columns. */
  datatype Converter = Converter(columnMap: map<int, nat>, columns: seq<Leaf>, indices: seq<nat>) {
    ghost predicate Valid() {
      MapsInto(columnMap, |columns|)
    }
  }

  /** The first position of `x`. */
  function Position(s: seq<nat>, x: nat): (r: Option<nat>)
    ensures r.Some? ==> r.value < |s| && s[r.value] == x
    ensures r.None? ==> x !in s
  {
    if s == [] then None
    else if s[0] == x then Some(0)
    else
      var rest := Position(s[1..], x);
      if rest.Some? then Some(rest.value + 1) else None
  }

  function BoundReference(c: Converter, id: int): Reference
    requires c.Valid()
  {
    if id !in c.columnMap then Absent
    else if !c.columns[c.columnMap[id]].topLevel then Nested
    else
      var position := Position(c.indices, c.columnMap[id]);
      if position.Some? then At(position.value) else NotFound
  }

  /** A leaf test: `present` when the column is there, a constant for a missing column, else the failure. */
  function Leafwise(reference: Reference, present: nat -> Kernel, missing: bool): Compiled {
    match reference
    case At(position) => Compiled(present(position))
    case Absent => Compiled(KConst(missing))
    case Nested => NestedColumn
    case NotFound => ColumnNotFound
  }

  function AllIntegers(literals: seq<Datum>): (b: bool) {
    literals == [] || (literals[0].Num? && AllIntegers(literals[1..]))
  }

  function Integers(literals: seq<Datum>): set<int> {
    if literals == [] then {}
    else Integers(literals[1..]) + if literals[0].Num? then {literals[0].n} else {}
  }

  /** What a comparison says of a column the file does not have. */
  predicate MissingCompare(op: BinaryOp) {
    op.LessThan? || op.LessThanOrEq? || op.NotStartsWith?
  }

  function CompileUnary(op: UnaryOp, reference: Reference): Compiled {
    match op
    case IsNull => Leafwise(reference, (i: nat) => KIsNull(i), true)
    case NotNull => Leafwise(reference, (i: nat) => KIsNotNull(i), false)
    case IsNan => Leafwise(reference, (i: nat) => KConst(true), false)
    case NotNan => Leafwise(reference, (i: nat) => KConst(false), true)
  }

  function CompileSet(op: SetOp, reference: Reference, literals: seq<Datum>): Compiled {
    match op
    case In =>
      if AllIntegers(literals) then Leafwise(reference, (i: nat) => KInIntegers(i, Integers(literals)), false)
      else Leafwise(reference, (i: nat) => KOrEqual(i, literals), false)
    case NotIn => Leafwise(reference, (i: nat) => KAndNotEqual(i, literals), true)
  }

  function Both(l: Compiled, r: Compiled, join: (Kernel, Kernel) -> Kernel): Compiled {
    if !l.Compiled? then l else if !r.Compiled? then r else Compiled(join(l.kernel, r.kernel))
  }

  function Compile(c: Converter, p: BoundPredicate): Compiled
    requires c.Valid()
  {
    match p
    case AlwaysTrue => Compiled(KConst(true))
    case AlwaysFalse => Compiled(KConst(false))
    case And(l, r) => Both(Compile(c, l), Compile(c, r), (k, m) => KAnd(k, m))
    case Or(l, r) => Both(Compile(c, l), Compile(c, r), (k, m) => KOr(k, m))
    case Not(q) =>
      var inner := Compile(c, q);
      if inner.Compiled? then Compiled(KNot(inner.kernel)) else inner
    case Unary(op, id) => CompileUnary(op, BoundReference(c, id))
    case Binary(op, id, d) => Leafwise(BoundReference(c, id), (i: nat) => KCompare(op, i, d), MissingCompare(op))
    case Set(op, id, ds) => CompileSet(op, BoundReference(c, id), ds)
  }

  /** With the indices collected from the predicate itself, compilation never reports a required column as missing; it
      succeeds exactly when every referenced column the file has is a root column. */
  lemma {:induction false} CompileSucceeds(c: Converter, p: BoundPredicate)
    requires c.Valid()
    requires forall id :: id in FieldIdsOf(p) && id in c.columnMap ==> c.columnMap[id] in c.indices
    ensures !Compile(c, p).ColumnNotFound?
    ensures Compile(c, p).Compiled?
       <==> forall id :: id in FieldIdsOf(p) && id in c.columnMap ==> c.columns[c.columnMap[id]].topLevel
  {
    match p
    case And(l, r) =>
      CompileSucceeds(c, l);
      CompileSucceeds(c, r);
    case Or(l, r) =>
      CompileSucceeds(c, l);
      CompileSucceeds(c, r);
    case Not(q) =>
      CompileSucceeds(c, q);
    case _ =>
  }

  // ----- execution -----

  /** Arrow's plain `or`: null as soon as either side is. */
  function ArrowOr(a: Tri, b: Tri): Tri {
    if a.Some? && b.Some? then Some(a.value || b.value) else None
  }

  function ArrowAnd(a: Tri, b: Tri): Tri {
    if a.Some? && b.Some? then Some(a.value && b.value) else None
  }

  function Cell(op: BinaryOp, cell: Option<Datum>, literal: Datum): Tri {
    if cell.Some? then Some(Compare(op, cell.value, literal)) else None
  }

  function OrEqual(acc: Tri, cell: Option<Datum>, literals: seq<Datum>): Tri
    decreases |literals|
  {
    if literals == [] then acc
    else OrEqual(ArrowOr(acc, Cell(Eq, cell, literals[0])), cell, literals[1..])
  }

  function AndNotEqual(acc: Tri, cell: Option<Datum>, literals: seq<Datum>): Tri
    decreases |literals|
  {
    if literals == [] then acc
    else AndNotEqual(ArrowAnd(acc, Cell(NotEq, cell, literals[0])), cell, literals[1..])
  }

  predicate ColumnsBelow(k: Kernel, n: nat) {
    match k
    case KConst(_) => true
    case KAnd(l, r) => ColumnsBelow(l, n) && ColumnsBelow(r, n)
    case KOr(l, r) => ColumnsBelow(l, n) && ColumnsBelow(r, n)
    case KNot(m) => ColumnsBelow(m, n)
    case _ => k.column < n
  }

  /** One row of the projected batch through the kernels, which all work element by element. */
  function Run(k: Kernel, batch: seq<Option<Datum>>): Tri
    requires ColumnsBelow(k, |batch|)
  {
    match k
    case KConst(b) => Some(b)
    case KAnd(l, r) => KleeneAnd(Run(l, batch), Run(r, batch))
    case KOr(l, r) => KleeneOr(Run(l, batch), Run(r, batch))
    case KNot(m) => KleeneNot(Run(m, batch))
    case KIsNull(i) => Some(batch[i].None?)
    case KIsNotNull(i) => Some(batch[i].Some?)
    case KCompare(op, i, d) => Cell(op, batch[i], d)
    case KInIntegers(i, ints) => Some(batch[i].Some? && batch[i].value.Num? && batch[i].value.n in ints)
    case KOrEqual(i, ds) => OrEqual(Some(false), batch[i], ds)
    case KAndNotEqual(i, ds) => AndNotEqual(Some(true), batch[i], ds)
  }

  /** The projected batch: the required leaf columns, in file order. */
  function Project(leaves: seq<Option<Datum>>, indices: seq<nat>): seq<Option<Datum>>
    requires forall i :: 0 <= i < |indices| ==> indices[i] < |leaves|
  {
    seq(|indices|, i requires 0 <= i < |indices| => leaves[indices[i]])
  }

  /** The file row as the predicate sees it: a field without a column is null. */
  function RowOf(c: Converter, leaves: seq<Option<Datum>>): int -> Option<Datum>
    requires c.Valid() && |leaves| == |c.columns|
  {
    FileRow(c.columnMap, leaves)
  }

  function FileRow(columnMap: map<int, nat>, leaves: seq<Option<Datum>>): int -> Option<Datum>
    requires MapsInto(columnMap, |leaves|)
  {
    id => if id in columnMap then leaves[columnMap[id]] else None
  }

  /** What compiles to what it means, on this row: NaN tests on present columns do so on NaN only, comparisons on
      missing columns never, and integer `IN` not on null. */
  ghost predicate LeafAgrees(columnMap: map<int, nat>, p: BoundPredicate, row: int -> Option<Datum>) {
    match p
    case Unary(op, id) => op.IsNull? || op.NotNull? || id !in columnMap || row(id) == Some(NaN)
    case Binary(_, id, _) => id in columnMap
    case Set(op, id, ds) =>
      ds == [] || (id in columnMap && (op.NotIn? || row(id).Some? || exists d :: d in ds && !d.Num?))
    case _ => true
  }

  /** What is true exactly where it should be, on this row: a comparison on a missing column unless it is one of those
      compiled to true, and every integer `IN`. */
  ghost predicate LeafKeepsTruth(columnMap: map<int, nat>, p: BoundPredicate, row: int -> Option<Datum>) {
    match p
    case Unary(_, _) => LeafAgrees(columnMap, p, row)
    case Binary(op, id, _) => id in columnMap || !MissingCompare(op)
    case Set(op, id, ds) => id in columnMap || op.In? || ds == []
    case _ => true
  }

  ghost predicate Agrees(columnMap: map<int, nat>, p: BoundPredicate, row: int -> Option<Datum>) {
    match p
    case And(l, r) => Agrees(columnMap, l, row) && Agrees(columnMap, r, row)
    case Or(l, r) => Agrees(columnMap, l, row) && Agrees(columnMap, r, row)
    case Not(q) => Agrees(columnMap, q, row)
    case _ => LeafAgrees(columnMap, p, row)
  }

  ghost predicate KeepsTruth(columnMap: map<int, nat>, p: BoundPredicate, row: int -> Option<Datum>) {
    match p
    case And(l, r) => KeepsTruth(columnMap, l, row) && KeepsTruth(columnMap, r, row)
    case Or(l, r) => KeepsTruth(columnMap, l, row) && KeepsTruth(columnMap, r, row)
    case Not(q) => KeepsTruth(columnMap, q, row)
    case _ => LeafKeepsTruth(columnMap, p, row)
  }

  ghost predicate Fits(c: Converter, leaves: seq<Option<Datum>>) {
    && c.Valid() && |leaves| == |c.columns|
    && forall i :: 0 <= i < |c.indices| ==> c.indices[i] < |leaves|
  }

  /** Each reference reads its own field's column in the projected batch. */
  lemma ReferenceReadsItsColumn(c: Converter, leaves: seq<Option<Datum>>, id: int)
    requires Fits(c, leaves)
    ensures var r := BoundReference(c, id);
            && (r.At? ==> r.position < |c.indices|)
            && (r.At? ==> Project(leaves, c.indices)[r.position] == RowOf(c, leaves)(id))
            && (r.Absent? ==> RowOf(c, leaves)(id).None?)
  {
  }

  lemma {:induction false} CompiledInScope(c: Converter, p: BoundPredicate)
    requires c.Valid() && Compile(c, p).Compiled?
    ensures ColumnsBelow(Compile(c, p).kernel, |c.indices|)
  {
    match p
    case And(l, r) =>
      CompiledInScope(c, l);
      CompiledInScope(c, r);
    case Or(l, r) =>
      CompiledInScope(c, l);
      CompiledInScope(c, r);
    case Not(q) =>
      CompiledInScope(c, q);
    case _ =>
  }

  lemma {:induction false} OrEqualMeans(acc: bool, cell: Option<Datum>, literals: seq<Datum>)
    ensures OrEqual(Some(acc), cell, literals)
         == if literals == [] then Some(acc) else if cell.None? then None else Some(acc || cell.value in literals)
    decreases |literals|
  {
    if literals != [] {
      if cell.Some? {
        OrEqualMeans(acc || cell.value == literals[0], cell, literals[1..]);
        assert literals == [literals[0]] + literals[1..];
      } else {
        NullAbsorbs(cell, literals[1..]);
      }
    }
  }

  lemma {:induction false} AndNotEqualMeans(acc: bool, cell: Option<Datum>, literals: seq<Datum>)
    ensures AndNotEqual(Some(acc), cell, literals)
         == if literals == [] then Some(acc) else if cell.None? then None else Some(acc && cell.value !in literals)
    decreases |literals|
  {
    if literals != [] {
      if cell.Some? {
        AndNotEqualMeans(acc && cell.value != literals[0], cell, literals[1..]);
        assert literals == [literals[0]] + literals[1..];
      } else {
        NullAbsorbs(cell, literals[1..]);
      }
    }
  }

  lemma {:induction false} NullAbsorbs(cell: Option<Datum>, literals: seq<Datum>)
    requires cell.None?
    ensures OrEqual(None, cell, literals) == None && AndNotEqual(None, cell, literals) == None
  {
    if literals != [] {
      NullAbsorbs(cell, literals[1..]);
    }
  }

  lemma {:induction false} AllIntegersMeans(literals: seq<Datum>)
    ensures AllIntegers(literals) <==> forall d :: d in literals ==> d.Num?
  {
    if literals != [] {
      AllIntegersMeans(literals[1..]);
      assert literals == [literals[0]] + literals[1..];
    }
  }

  lemma {:induction false} IntegersMember(literals: seq<Datum>, d: Datum)
    requires AllIntegers(literals)
    ensures d in literals <==> d.Num? && d.n in Integers(literals)
  {
    if literals != [] {
      IntegersMember(literals[1..], d);
      assert literals == [literals[0]] + literals[1..];
    }
  }

  /** A compiled leaf computes what it means exactly on the rows of `LeafAgrees`, and is true exactly where it should be
      on the rows of `LeafKeepsTruth`. */
  lemma LeafExact(c: Converter, p: BoundPredicate, leaves: seq<Option<Datum>>)
    requires Fits(c, leaves) && Compile(c, p).Compiled?
    requires p.Unary? || p.Binary? || p.Set?
    requires ColumnsBelow(Compile(c, p).kernel, |c.indices|)
    ensures var got, want := Run(Compile(c, p).kernel, Project(leaves, c.indices)), Meaning(p, RowOf(c, leaves), Kleene);
            && (got == want <==> LeafAgrees(c.columnMap, p, RowOf(c, leaves)))
            && ((got == Some(true) <==> want == Some(true)) <==> LeafKeepsTruth(c.columnMap, p, RowOf(c, leaves)))
            && (want == Some(false) && LeafKeepsTruth(c.columnMap, p, RowOf(c, leaves)) ==> got == Some(false))
  {
    ReferenceReadsItsColumn(c, leaves, p.term);
    if p.Set? {
      var cell := RowOf(c, leaves)(p.term);
      OrEqualMeans(false, cell, p.literals);
      AndNotEqualMeans(true, cell, p.literals);
      AllIntegersMeans(p.literals);
      if AllIntegers(p.literals) && cell.Some? {
        IntegersMember(p.literals, cell.value);
      }
    }
  }

  /** The compiled comparison of a number with a number. */
  lemma NumbersCompared(c: Converter, op: BinaryOp, id: int, n: int, m: int, leaves: seq<Option<Datum>>)
    requires Fits(c, leaves) && Compile(c, Binary(op, id, Num(n))).Compiled? && RowOf(c, leaves)(id) == Some(Num(m))
    ensures ColumnsBelow(Compile(c, Binary(op, id, Num(n))).kernel, |c.indices|)
    ensures Run(Compile(c, Binary(op, id, Num(n))).kernel, Project(leaves, c.indices)) == Some(
              match op
              case LessThan => m < n
              case LessThanOrEq => m <= n
              case GreaterThan => m > n
              case GreaterThanOrEq => m >= n
              case Eq => m == n
              case NotEq => m != n
              case StartsWith => false
              case NotStartsWith => true)
  {
    CompiledInScope(c, Binary(op, id, Num(n)));
    ReferenceReadsItsColumn(c, leaves, id);
  }

  /** Of a text with a text: in the order of the first difference. */
  lemma TextsCompared(c: Converter, op: BinaryOp, id: int, t: string, s: string, leaves: seq<Option<Datum>>)
    requires Fits(c, leaves) && Compile(c, Binary(op, id, Text(t))).Compiled? && RowOf(c, leaves)(id) == Some(Text(s))
    ensures ColumnsBelow(Compile(c, Binary(op, id, Text(t))).kernel, |c.indices|)
    ensures Run(Compile(c, Binary(op, id, Text(t))).kernel, Project(leaves, c.indices)) == Some(
              match op
              case LessThan => Before(s, t)
              case LessThanOrEq => s == t || Before(s, t)
              case GreaterThan => Before(t, s)
              case GreaterThanOrEq => s == t || Before(t, s)
              case Eq => s == t
              case NotEq => s != t
              case StartsWith => (exists u :: s == t + u)
              case NotStartsWith => !exists u :: s == t + u)
  {
    CompiledInScope(c, Binary(op, id, Text(t)));
    ReferenceReadsItsColumn(c, leaves, id);
    LessOrder(Text(s), Text(t), Text(s));
    LessOrder(Text(t), Text(s), Text(t));
    if t <= s {
      assert s == t + s[|t|..];
    }
  }

  /** Of a NaN with a number, which it is above, and with NaN, which it equals. */
  lemma NanCompared(c: Converter, op: BinaryOp, id: int, literal: Datum, leaves: seq<Option<Datum>>)
    requires Fits(c, leaves) && Compile(c, Binary(op, id, literal)).Compiled? && RowOf(c, leaves)(id) == Some(NaN)
    requires !literal.Text?
    ensures ColumnsBelow(Compile(c, Binary(op, id, literal)).kernel, |c.indices|)
    ensures Run(Compile(c, Binary(op, id, literal)).kernel, Project(leaves, c.indices)) == Some(
              match op
              case LessThan => false
              case LessThanOrEq => literal.NaN?
              case GreaterThan => literal.Num?
              case GreaterThanOrEq => true
              case Eq => literal.NaN?
              case NotEq => literal.Num?
              case StartsWith => false
              case NotStartsWith => true)
  {
    CompiledInScope(c, Binary(op, id, literal));
    ReferenceReadsItsColumn(c, leaves, id);
  }

  /** Where every leaf agrees, the compiled filter computes the predicate's three-valued meaning. */
  lemma {:induction false} CompileCorrect(c: Converter, p: BoundPredicate, leaves: seq<Option<Datum>>)
    requires Fits(c, leaves) && Compile(c, p).Compiled? && Agrees(c.columnMap, p, RowOf(c, leaves))
    ensures ColumnsBelow(Compile(c, p).kernel, |c.indices|)
    ensures Run(Compile(c, p).kernel, Project(leaves, c.indices)) == Meaning(p, RowOf(c, leaves), Kleene)
  {
    CompiledInScope(c, p);
    match p
    case AlwaysTrue =>
    case AlwaysFalse =>
    case And(l, r) =>
      CompileCorrect(c, l, leaves);
      CompileCorrect(c, r, leaves);
    case Or(l, r) =>
      CompileCorrect(c, l, leaves);
      CompileCorrect(c, r, leaves);
    case Not(q) =>
      CompileCorrect(c, q, leaves);
    case _ =>
      LeafExact(c, p, leaves);
  }

  /** Where every leaf keeps truth, integer `IN` as a hash-set test and missing columns included, a NOT-free filter is
      true exactly if the predicate is, and false wherever the predicate is false. */
  lemma {:induction false} TruthKept(c: Converter, p: BoundPredicate, leaves: seq<Option<Datum>>)
    requires Fits(c, leaves) && Compile(c, p).Compiled?
    requires NotFree(p) && KeepsTruth(c.columnMap, p, RowOf(c, leaves))
    ensures ColumnsBelow(Compile(c, p).kernel, |c.indices|)
    ensures Run(Compile(c, p).kernel, Project(leaves, c.indices)) == Some(true)
       <==> Meaning(p, RowOf(c, leaves), Kleene) == Some(true)
    ensures Meaning(p, RowOf(c, leaves), Kleene) == Some(false)
        ==> Run(Compile(c, p).kernel, Project(leaves, c.indices)) == Some(false)
  {
    CompiledInScope(c, p);
    match p
    case AlwaysTrue =>
    case AlwaysFalse =>
    case And(l, r) =>
      TruthKept(c, l, leaves);
      TruthKept(c, r, leaves);
    case Or(l, r) =>
      TruthKept(c, l, leaves);
      TruthKept(c, r, leaves);
    case _ =>
      LeafExact(c, p, leaves);
  }

  /** A comparison on a column the file does not have is unknown on every row; the filter passes all rows if the
      operator is one of those compiled to true, and none otherwise. */
  lemma MissingComparison(c: Converter, op: BinaryOp, id: int, literal: Datum, leaves: seq<Option<Datum>>)
    requires Fits(c, leaves) && id !in c.columnMap
    ensures Compile(c, Binary(op, id, literal)) == Compiled(KConst(MissingCompare(op)))
    ensures Meaning(Binary(op, id, literal), RowOf(c, leaves), Kleene) == None
    ensures Run(KConst(MissingCompare(op)), Project(leaves, c.indices)) == Some(true)
       <==> op.LessThan? || op.LessThanOrEq? || op.NotStartsWith?
  {
    var p: BoundPredicate := Binary(op, id, literal);
    CompiledInScope(c, p);
  }

  /** The filter passes `IS NOT NAN` on no row of a column that the file has, and `IS NAN` on every row. */
  lemma NanTestIsConstant(c: Converter, id: int, leaves: seq<Option<Datum>>)
    requires Fits(c, leaves) && BoundReference(c, id).At?
    ensures Compile(c, Unary(NotNan, id)) == Compiled(KConst(false))
    ensures Compile(c, Unary(IsNan, id)) == Compiled(KConst(true))
    ensures forall op :: op in [IsNan, NotNan] ==>
              (Run(Compile(c, Unary(op, id)).kernel, Project(leaves, c.indices)) == Meaning(Unary(op, id), RowOf(c, leaves), Kleene)
          <==> RowOf(c, leaves)(id) == Some(NaN))
  {
    var test, negated: BoundPredicate := Unary(IsNan, id), Unary(NotNan, id);
    CompiledInScope(c, test);
    CompiledInScope(c, negated);
    LeafExact(c, test, leaves);
    LeafExact(c, negated, leaves);
  }

  /** Under NOT the two differ on exactly the rows where the column is null: those pass the filter, though the predicate
      is unknown on them. */
  lemma NegatedIntegerIn(c: Converter, id: int, literals: seq<Datum>, leaves: seq<Option<Datum>>)
    requires Fits(c, leaves) && id in c.columnMap && literals != [] && forall d :: d in literals ==> d.Num?
    requires Compile(c, Not(Set(In, id, literals))).Compiled?
    ensures ColumnsBelow(Compile(c, Not(Set(In, id, literals))).kernel, |c.indices|)
    ensures var got := Run(Compile(c, Not(Set(In, id, literals))).kernel, Project(leaves, c.indices));
            var want := Meaning(Not(Set(In, id, literals)), RowOf(c, leaves), Kleene);
            && (got == want <==> RowOf(c, leaves)(id).Some?)
            && (RowOf(c, leaves)(id).None? ==> got == Some(true) && want == None)
  {
    var p: BoundPredicate := Set(In, id, literals);
    CompiledInScope(c, p);
    LeafExact(c, p, leaves);
  }

  // ----- the row filter of one file -----

  /** The converter's tables for a predicate: the field map of the file and the columns the predicate needs. */
  ghost predicate IsConverter(c: Converter, columns: seq<Leaf>, columnMap: map<int, nat>, p: BoundPredicate) {
    && c.columns == columns && c.columnMap == columnMap
    && Ascending(c.indices)
    && forall i: nat :: i in c.indices <==> Needs(p, columnMap, i)
  }

  /** Column `i` is the column of a field the predicate refers to. */
  ghost predicate Needs(p: BoundPredicate, columnMap: map<int, nat>, i: nat) {
    exists id :: id in FieldIdsOf(p) && id in columnMap && columnMap[id] == i
  }

  /** Every column that the predicate refers to and the file has is a root column. */
  ghost predicate OnRootColumns(p: BoundPredicate, columns: seq<Leaf>, columnMap: map<int, nat>)
    requires MapsInto(columnMap, |columns|)
  {
    forall id :: id in FieldIdsOf(p) && id in columnMap ==> columns[columnMap[id]].topLevel
  }

  /** Collects the ids, sorts their columns and compiles. The field map of a file is injective, so the columns come out
      strictly ascending, "cannot be found" is never reported, and the only failure is a nested column. */
  method GetRowFilter(p: BoundPredicate, columns: seq<Leaf>, columnMap: map<int, nat>, walk: seq<int>)
    returns (c: Converter, compiled: Compiled)
    requires Injective(columnMap) && MapsInto(columnMap, |columns|)
    requires forall i, j :: 0 <= i < j < |walk| ==> walk[i] != walk[j]
    requires forall id :: id in walk <==> id in FieldIdsOf(p)
    ensures IsConverter(c, columns, columnMap, p)
    ensures compiled == Compile(c, p) && !compiled.ColumnNotFound?
    ensures compiled.Compiled? <==> OnRootColumns(p, columns, columnMap)
  {
    var indices := ColumnIndices(walk, columnMap);
    c := Converter(columnMap, columns, indices);
    forall i: nat
      ensures i in indices <==> Needs(p, columnMap, i)
    {
      assert Required(walk, columnMap, i) <==> Needs(p, columnMap, i);
    }
    ConverterCompiles(c, columns, columnMap, p);
    compiled := Compile(c, p);
  }

  lemma ConverterCompiles(c: Converter, columns: seq<Leaf>, columnMap: map<int, nat>, p: BoundPredicate)
    requires MapsInto(columnMap, |columns|) && IsConverter(c, columns, columnMap, p)
    ensures !Compile(c, p).ColumnNotFound?
    ensures Compile(c, p).Compiled? <==> OnRootColumns(p, columns, columnMap)
  {
    forall id | id in FieldIdsOf(p) && id in columnMap
      ensures columnMap[id] in c.indices
    {
      assert Needs(p, columnMap, columnMap[id]);
    }
    CompileSucceeds(c, p);
  }

  /** A row of as many cells as the file has columns fits the converter. */
  lemma ConverterFits(c: Converter, columns: seq<Leaf>, columnMap: map<int, nat>, p: BoundPredicate,
                      leaves: seq<Option<Datum>>)
    requires MapsInto(columnMap, |columns|) && IsConverter(c, columns, columnMap, p) && |leaves| == |columns|
    ensures Fits(c, leaves)
  {
    forall k | 0 <= k < |c.indices|
      ensures c.indices[k] < |leaves|
    {
      assert c.indices[k] in c.indices;
      assert Needs(p, columnMap, c.indices[k]);
    }
  }
}
