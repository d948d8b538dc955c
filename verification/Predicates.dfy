/**
 Row predicates, unbound (over column names) or bound (over field ids), with the simplifying
 constructors, NOT elimination, and their three-valued meaning.
 */
module Predicates {
  import opened Common

  /** `NaN` is the floating-point not-a-number; the comparison kernels order it above every number. */
  datatype Datum = Num(n: int) | Text(s: string) | NaN

  datatype UnaryOp = IsNull | NotNull | IsNan | NotNan

  datatype BinaryOp =
    | LessThan | LessThanOrEq | GreaterThan | GreaterThanOrEq
    | Eq | NotEq | StartsWith | NotStartsWith

  datatype SetOp = In | NotIn

  /** `R` is the reference type; a literal list is the set's iteration order. */
  datatype Predicate<R> =
    | AlwaysTrue
    | AlwaysFalse
    | And(left: Predicate<R>, right: Predicate<R>)
    | Or(left: Predicate<R>, right: Predicate<R>)
    | Not(inner: Predicate<R>)
    | Unary(unaryOp: UnaryOp, term: R)
    | Binary(binaryOp: BinaryOp, term: R, literal: Datum)
    | Set(setOp: SetOp, term: R, literals: seq<Datum>)

  /** A predicate over the field ids of a table. */
  type BoundPredicate = Predicate<int>

  // ----- constructors and NOT elimination -----

  function MkAnd<R>(p: Predicate<R>, q: Predicate<R>): Predicate<R> {
    if p.AlwaysFalse? || q.AlwaysFalse? then AlwaysFalse
    else if p.AlwaysTrue? then q
    else if q.AlwaysTrue? then p
    else And(p, q)
  }

  function MkOr<R>(p: Predicate<R>, q: Predicate<R>): Predicate<R> {
    if p.AlwaysTrue? || q.AlwaysTrue? then AlwaysTrue
    else if p.AlwaysFalse? then q
    else if q.AlwaysFalse? then p
    else Or(p, q)
  }

  function NegateUnary(op: UnaryOp): UnaryOp {
    match op
    case IsNull => NotNull
    case NotNull => IsNull
    case IsNan => NotNan
    case NotNan => IsNan
  }

  function NegateBinary(op: BinaryOp): BinaryOp {
    match op
    case LessThan => GreaterThanOrEq
    case LessThanOrEq => GreaterThan
    case GreaterThan => LessThanOrEq
    case GreaterThanOrEq => LessThan
    case Eq => NotEq
    case NotEq => Eq
    case StartsWith => NotStartsWith
    case NotStartsWith => StartsWith
  }

  function NegateSet(op: SetOp): SetOp {
    if op.In? then NotIn else In
  }

  function Negate<R>(p: Predicate<R>): Predicate<R> {
    match p
    case AlwaysTrue => AlwaysFalse
    case AlwaysFalse => AlwaysTrue
    case And(l, r) => Or(Negate(l), Negate(r))
    case Or(l, r) => And(Negate(l), Negate(r))
    case Not(q) => q
    case Unary(op, t) => Unary(NegateUnary(op), t)
    case Binary(op, t, d) => Binary(NegateBinary(op), t, d)
    case Set(op, t, ds) => Set(NegateSet(op), t, ds)
  }

  function RewriteNot<R>(p: Predicate<R>): Predicate<R> {
    match p
    case And(l, r) => MkAnd(RewriteNot(l), RewriteNot(r))
    case Or(l, r) => MkOr(RewriteNot(l), RewriteNot(r))
    case Not(q) => Negate(RewriteNot(q))
    case _ => p
  }

  predicate NotFree<R>(p: Predicate<R>) {
    match p
    case And(l, r) => NotFree(l) && NotFree(r)
    case Or(l, r) => NotFree(l) && NotFree(r)
    case Not(_) => false
    case _ => true
  }

  // ----- three-valued meaning -----

  /** True, False or unknown. */
  type Tri = Option<bool>

  function KleeneAnd(a: Tri, b: Tri): Tri {
    if a == Some(false) || b == Some(false) then Some(false)
    else if a == Some(true) && b == Some(true) then Some(true)
    else None
  }

  function KleeneOr(a: Tri, b: Tri): Tri {
    if a == Some(true) || b == Some(true) then Some(true)
    else if a == Some(false) && b == Some(false) then Some(false)
    else None
  }

  function KleeneNot(a: Tri): Tri {
    if a.Some? then Some(!a.value) else None
  }

  predicate TextLess(s: string, t: string) {
    t != [] && (s == [] || s[0] < t[0] || (s[0] == t[0] && TextLess(s[1..], t[1..])))
  }

  predicate Less(a: Datum, b: Datum) {
    match (a, b)
    case (Num(m), Num(n)) => m < n
    case (Num(_), NaN) => true
    case (Text(s), Text(t)) => TextLess(s, t)
    case _ => false
  }

  predicate Prefix(a: Datum, b: Datum) {
    a.Text? && b.Text? && a.s <= b.s
  }

  /** What each comparison says of a value that is there. */
  predicate Compare(op: BinaryOp, d: Datum, literal: Datum) {
    match op
    case LessThan => Less(d, literal)
    case LessThanOrEq => !Less(literal, d)
    case GreaterThan => Less(literal, d)
    case GreaterThanOrEq => !Less(d, literal)
    case Eq => d == literal
    case NotEq => d != literal
    case StartsWith => Prefix(literal, d)
    case NotStartsWith => !Prefix(literal, d)
  }

  /** A proper prefix comes before the longer text; otherwise the first character that differs decides. */
  ghost predicate Before(s: string, t: string) {
    exists k :: 0 <= k <= |s| && k < |t| && s[..k] == t[..k] && (k == |s| || s[k] < t[k])
  }

  lemma {:induction false} TextLessMeans(s: string, t: string)
    ensures TextLess(s, t) <==> Before(s, t)
  {
    forall k | 0 < k <= |s| && k < |t| && s[..k] == t[..k]
      ensures s[0] == t[0]
    {
      assert s[..k][0] == t[..k][0];
    }
    if s != [] && t != [] && s[0] == t[0] {
      TextLessMeans(s[1..], t[1..]);
      if k :| 0 <= k <= |s| - 1 && k < |t| - 1 && s[1..][..k] == t[1..][..k] && (k == |s| - 1 || s[1..][k] < t[1..][k]) {
        assert s[..k + 1] == [s[0]] + s[1..][..k] && t[..k + 1] == [t[0]] + t[1..][..k];
      }
      if k :| 0 <= k <= |s| && k < |t| && s[..k] == t[..k] && (k == |s| || s[k] < t[k]) {
        assert k > 0;
        assert s[1..][..k - 1] == s[..k][1..] && t[1..][..k - 1] == t[..k][1..];
      }
    } else if TextLess(s, t) {
      assert s[..0] == t[..0];
    }
  }

  lemma {:induction false} TextOrder(s: string, t: string, u: string)
    ensures !TextLess(s, s)
    ensures TextLess(s, t) && TextLess(t, u) ==> TextLess(s, u)
    ensures s == t || TextLess(s, t) || TextLess(t, s)
  {
    if s != [] {
      var rest: string -> string := (v: string) => if v == [] then [] else v[1..];
      TextOrder(s[1..], rest(t), rest(u));
      assert t != [] && s[0] == t[0] && s[1..] == t[1..] ==> s == [s[0]] + s[1..] == t;
    }
  }

  /** The values of one kind of column: texts, or numbers with NaN. */
  ghost predicate SameKind(a: Datum, b: Datum) {
    a.Text? <==> b.Text?
  }

  /** `Less` is a strict order, total on the values of one kind of column, with NaN above every number. */
  lemma LessOrder(a: Datum, b: Datum, c: Datum)
    ensures !Less(a, a)
    ensures Less(a, b) && Less(b, c) ==> Less(a, c)
    ensures SameKind(a, b) ==> a == b || Less(a, b) || Less(b, a)
    ensures !SameKind(a, b) ==> !Less(a, b)
    ensures a.Num? ==> Less(a, NaN) && !Less(NaN, a)
    ensures a.Num? && b.Num? ==> (Less(a, b) <==> a.n < b.n)
    ensures a.Text? && b.Text? ==> (Less(a, b) <==> Before(a.s, b.s))
  {
    if a.Text? {
      TextOrder(a.s, if b.Text? then b.s else "", if c.Text? then c.s else "");
      TextLessMeans(a.s, if b.Text? then b.s else "");
    }
  }

  /** How a comparison reads a null cell: `Kleene` gives unknown; `NullIsAValue` treats null as a value that no literal
      equals, so that it fails every positive comparison and passes every negated one. */
  datatype Reading = Kleene | NullIsAValue

  predicate IsNegated(op: BinaryOp) {
    op.NotEq? || op.NotStartsWith? || op.GreaterThanOrEq? || op.GreaterThan?
  }

  function Meaning<R>(p: Predicate<R>, row: R -> Option<Datum>, reading: Reading): Tri {
    match p
    case AlwaysTrue => Some(true)
    case AlwaysFalse => Some(false)
    case And(l, r) => KleeneAnd(Meaning(l, row, reading), Meaning(r, row, reading))
    case Or(l, r) => KleeneOr(Meaning(l, row, reading), Meaning(r, row, reading))
    case Not(q) => KleeneNot(Meaning(q, row, reading))
    case Unary(op, t) => Some(TestCell(op, row(t)))
    case Binary(op, t, d) => CompareCell(op, row(t), d, reading)
    case Set(op, t, ds) => InCell(op, row(t), ds, reading)
  }

  predicate TestCell(op: UnaryOp, cell: Option<Datum>) {
    match op
    case IsNull => cell.None?
    case NotNull => cell.Some?
    case IsNan => cell == Some(NaN)
    case NotNan => cell != Some(NaN)
  }

  function CompareCell(op: BinaryOp, cell: Option<Datum>, literal: Datum, reading: Reading): Tri {
    if cell.Some? then Some(Compare(op, cell.value, literal))
    else if reading.Kleene? then None
    else Some(IsNegated(op))
  }

  /** `IN` is the disjunction of its equalities, `NOT IN` the conjunction of its inequalities. */
  function InCell(op: SetOp, cell: Option<Datum>, literals: seq<Datum>, reading: Reading): Tri {
    if literals == [] then Some(op.NotIn?)
    else if cell.Some? then Some((cell.value in literals) == op.In?)
    else if reading.Kleene? then None
    else Some(op.NotIn?)
  }

  lemma MkAndMeaning<R>(p: Predicate<R>, q: Predicate<R>, row: R -> Option<Datum>, reading: Reading)
    ensures Meaning(MkAnd(p, q), row, reading) == KleeneAnd(Meaning(p, row, reading), Meaning(q, row, reading))
  {
  }

  lemma MkOrMeaning<R>(p: Predicate<R>, q: Predicate<R>, row: R -> Option<Datum>, reading: Reading)
    ensures Meaning(MkOr(p, q), row, reading) == KleeneOr(Meaning(p, row, reading), Meaning(q, row, reading))
  {
  }

  lemma {:induction false} NegateMeaning<R>(p: Predicate<R>, row: R -> Option<Datum>, reading: Reading)
    ensures Meaning(Negate(p), row, reading) == KleeneNot(Meaning(p, row, reading))
  {
    match p
    case And(l, r) =>
      NegateMeaning(l, row, reading);
      NegateMeaning(r, row, reading);
    case Or(l, r) =>
      NegateMeaning(l, row, reading);
      NegateMeaning(r, row, reading);
    case _ =>
  }

  lemma {:induction false} NegateNotFree<R>(p: Predicate<R>)
    requires NotFree(p)
    ensures NotFree(Negate(p))
  {
    match p
    case And(l, r) =>
      NegateNotFree(l);
      NegateNotFree(r);
    case Or(l, r) =>
      NegateNotFree(l);
      NegateNotFree(r);
    case _ =>
  }

  /** No constant below a conjunction, a disjunction or a negation. */
  ghost predicate Simplified<R>(p: Predicate<R>)
    decreases p, 0
  {
    match p
    case And(l, r) => Firm(l) && Firm(r)
    case Or(l, r) => Firm(l) && Firm(r)
    case Not(q) => Firm(q)
    case _ => true
  }

  /** Nor a constant itself. */
  ghost predicate Firm<R>(p: Predicate<R>)
    decreases p, 1
  {
    !p.AlwaysTrue? && !p.AlwaysFalse? && Simplified(p)
  }

  lemma {:induction false} NegateSimplified<R>(p: Predicate<R>)
    requires Simplified(p) && NotFree(p)
    ensures Simplified(Negate(p)) && (Firm(p) ==> Firm(Negate(p)))
  {
    match p
    case And(l, r) =>
      NegateSimplified(l);
      NegateSimplified(r);
    case Or(l, r) =>
      NegateSimplified(l);
      NegateSimplified(r);
    case _ =>
  }

  /** Eliminating NOT leaves no constant below the top. */
  lemma {:induction false} RewriteNotSimplifies<R>(p: Predicate<R>)
    ensures Simplified(RewriteNot(p)) && NotFree(RewriteNot(p))
  {
    match p
    case And(l, r) =>
      RewriteNotSimplifies(l);
      RewriteNotSimplifies(r);
    case Or(l, r) =>
      RewriteNotSimplifies(l);
      RewriteNotSimplifies(r);
    case Not(q) =>
      RewriteNotSimplifies(q);
      NegateSimplified(RewriteNot(q));
      NegateNotFree(RewriteNot(q));
    case _ =>
  }

  /** Eliminating NOT keeps the meaning of every row, under either reading of nulls, and leaves no NOT. */
  lemma {:induction false} RewriteNotKeepsMeaning<R>(p: Predicate<R>, row: R -> Option<Datum>, reading: Reading)
    ensures Meaning(RewriteNot(p), row, reading) == Meaning(p, row, reading)
    ensures NotFree(RewriteNot(p))
  {
    match p
    case And(l, r) =>
      RewriteNotKeepsMeaning(l, row, reading);
      RewriteNotKeepsMeaning(r, row, reading);
    case Or(l, r) =>
      RewriteNotKeepsMeaning(l, row, reading);
      RewriteNotKeepsMeaning(r, row, reading);
    case Not(q) =>
      RewriteNotKeepsMeaning(q, row, reading);
      NegateMeaning(RewriteNot(q), row, reading);
      NegateNotFree(RewriteNot(q));
    case _ =>
  }

  // ----- conjunctions as lists -----

  /** The conjuncts in left-to-right order. */
  function Conjuncts<R>(p: Predicate<R>): seq<Predicate<R>> {
    match p
    case AlwaysTrue => []
    case And(l, r) => Conjuncts(l) + Conjuncts(r)
    case _ => [p]
  }

  function All<R>(ps: seq<Predicate<R>>, row: R -> Option<Datum>, reading: Reading): Tri {
    if ps == [] then Some(true) else KleeneAnd(Meaning(ps[0], row, reading), All(ps[1..], row, reading))
  }

  lemma {:induction false} AllConcat<R>(ps: seq<Predicate<R>>, qs: seq<Predicate<R>>,
                                        row: R -> Option<Datum>, reading: Reading)
    ensures All(ps + qs, row, reading) == KleeneAnd(All(ps, row, reading), All(qs, row, reading))
  {
    if ps == [] {
      assert ps + qs == qs;
    } else {
      AllConcat(ps[1..], qs, row, reading);
      assert (ps + qs)[1..] == ps[1..] + qs;
    }
  }

  /** A predicate means the conjunction of its conjuncts, however they are nested. */
  lemma {:induction false} MeaningOfConjuncts<R>(p: Predicate<R>, row: R -> Option<Datum>, reading: Reading)
    ensures Meaning(p, row, reading) == All(Conjuncts(p), row, reading)
  {
    match p
    case And(l, r) =>
      MeaningOfConjuncts(l, row, reading);
      MeaningOfConjuncts(r, row, reading);
      AllConcat(Conjuncts(l), Conjuncts(r), row, reading);
    case _ =>
  }

  /** True needs every conjunct, and one false conjunct is enough for false. */
  lemma {:induction false} AllMeans<R>(ps: seq<Predicate<R>>, row: R -> Option<Datum>, reading: Reading)
    ensures All(ps, row, reading) == Some(true)
       <==> forall i :: 0 <= i < |ps| ==> Meaning(ps[i], row, reading) == Some(true)
    ensures All(ps, row, reading) == Some(false)
       <==> exists i :: 0 <= i < |ps| && Meaning(ps[i], row, reading) == Some(false)
  {
    if ps != [] {
      AllMeans(ps[1..], row, reading);
      assert forall i :: 0 <= i < |ps[1..]| ==> ps[1..][i] == ps[i + 1];
    }
  }
}
