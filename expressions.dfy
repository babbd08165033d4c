/** The parsed formula, as far as the handlers look into it: symbols,
    indexed references into a variable's vector, Sum and Product nodes with
    their limit arguments, and every other node kept opaque. The queries
    expr.find(Sum), expr.find(Product) and expr.atoms(Symbol)
    (artemis/api/calculator.py:59-60, :81) are defined on this tree. */
module Expressions {

  datatype AggKind = SumOp | ProductOp

  datatype Expr =
    | Symbol(name: string)
      /** base[index], built from IndexedBase(base) and a subscript text */
    | Indexed(base: string, index: string)
      /** Sum(body, limit, ...) or Product(body, limit, ...): args[0] is the
          body and args[1..] are the limits */
    | Aggregate(kind: AggKind, body: Expr, limits: seq<Limit>)
      /** any other node: numbers, arithmetic, Eq and so on */
    | Node(head: string, args: seq<Expr>)

  /** A limit argument such as (i, 1, n): its first component is the bound
      variable, the rest its range. */
  datatype Limit = Limit(bound: Expr, range: seq<Expr>)

  /** e and every expression below it. */
  function Subterms(e: Expr): set<Expr>
    decreases e, 2
  {
    match e
    case Symbol(_) => {e}
    case Indexed(_, _) => {e}
    case Node(_, args) => {e} + (set a, t | a in args && t in Subterms(a) :: t)
    case Aggregate(_, body, _) => {e} + Subterms(body) + BoundSubterms(e) + RangeSubterms(e)
  }

  /** Every expression inside the bound variables of aggregate e's limits. */
  function BoundSubterms(e: Expr): set<Expr>
    requires e.Aggregate?
    decreases e, 1
  {
    set l, t | l in e.limits && t in Subterms(l.bound) :: t
  }

  /** Every expression inside the ranges of aggregate e's limits. */
  function RangeSubterms(e: Expr): set<Expr>
    requires e.Aggregate?
    decreases e, 1
  {
    set l, t | l in e.limits && t in LimitRangeSubterms(e, l) :: t
  }

  /** Every expression inside the range of limit l of aggregate e. */
  function LimitRangeSubterms(e: Expr, l: Limit): set<Expr>
    requires e.Aggregate? && l in e.limits
    decreases e, 0
  {
    set r, t | r in l.range && t in Subterms(r) :: t
  }

  /** expr.find(Sum) or expr.find(Product): a walk over the tree that
      collects every node of that kind. */
  function Find(e: Expr, kind: AggKind): (found: set<Expr>)
    ensures forall t :: t in found ==> t.Aggregate? && t.kind == kind
    decreases e, 2
  {
    match e
    case Symbol(_) => {}
    case Indexed(_, _) => {}
    case Node(_, args) => set a, t | a in args && t in Find(a, kind) :: t
    case Aggregate(k, body, _) =>
      (if k == kind then {e} else {}) + Find(body, kind) + BoundFind(e, kind) + RangeFind(e, kind)
  }

  /** The walk inside the bound variables of aggregate e's limits. */
  function BoundFind(e: Expr, kind: AggKind): (found: set<Expr>)
    requires e.Aggregate?
    ensures forall t :: t in found ==> t.Aggregate? && t.kind == kind
    decreases e, 1
  {
    set l, t | l in e.limits && t in Find(l.bound, kind) :: t
  }

  /** The walk inside the ranges of aggregate e's limits. */
  function RangeFind(e: Expr, kind: AggKind): (found: set<Expr>)
    requires e.Aggregate?
    ensures forall t :: t in found ==> t.Aggregate? && t.kind == kind
    decreases e, 1
  {
    set l, t | l in e.limits && t in LimitRangeFind(e, l, kind) :: t
  }

  /** The walk inside the range of limit l of aggregate e. */
  function LimitRangeFind(e: Expr, l: Limit, kind: AggKind): (found: set<Expr>)
    requires e.Aggregate? && l in e.limits
    ensures forall t :: t in found ==> t.Aggregate? && t.kind == kind
    decreases e, 0
  {
    set r, t | r in l.range && t in Find(r, kind) :: t
  }

  /** The walk finds exactly the subterms of the requested kind: every one
      of them, wherever it sits, and nothing else. */
  lemma {:induction false} FindExact(e: Expr, kind: AggKind, x: Expr)
    ensures x in Find(e, kind) <==> x in Subterms(e) && x.Aggregate? && x.kind == kind
    decreases e, 2
  {
    match e
    case Symbol(_) =>
    case Indexed(_, _) =>
    case Node(_, args) =>
      if x in Find(e, kind) {
        var a :| a in args && x in Find(a, kind);
        FindExact(a, kind, x);
      }
      if x in Subterms(e) && x.Aggregate? {
        var a :| a in args && x in Subterms(a);
        FindExact(a, kind, x);
      }
    case Aggregate(_, body, _) =>
      FindExact(body, kind, x);
      BoundFindExact(e, kind, x);
      RangeFindExact(e, kind, x);
  }

  lemma {:induction false} BoundFindExact(e: Expr, kind: AggKind, x: Expr)
    requires e.Aggregate?
    ensures x in BoundFind(e, kind) <==> x in BoundSubterms(e) && x.Aggregate? && x.kind == kind
    decreases e, 1
  {
    if x in BoundFind(e, kind) {
      var l :| l in e.limits && x in Find(l.bound, kind);
      FindExact(l.bound, kind, x);
    }
    if x in BoundSubterms(e) && x.Aggregate? {
      var l :| l in e.limits && x in Subterms(l.bound);
      FindExact(l.bound, kind, x);
    }
  }

  lemma {:induction false} RangeFindExact(e: Expr, kind: AggKind, x: Expr)
    requires e.Aggregate?
    ensures x in RangeFind(e, kind) <==> x in RangeSubterms(e) && x.Aggregate? && x.kind == kind
    decreases e, 1
  {
    if x in RangeFind(e, kind) {
      var l :| l in e.limits && x in LimitRangeFind(e, l, kind);
      LimitRangeFindExact(e, l, kind, x);
    }
    if x in RangeSubterms(e) && x.Aggregate? {
      var l :| l in e.limits && x in LimitRangeSubterms(e, l);
      LimitRangeFindExact(e, l, kind, x);
    }
  }

  lemma {:induction false} LimitRangeFindExact(e: Expr, l: Limit, kind: AggKind, x: Expr)
    requires e.Aggregate? && l in e.limits
    ensures x in LimitRangeFind(e, l, kind) <==> x in LimitRangeSubterms(e, l) && x.Aggregate? && x.kind == kind
    decreases e, 0
  {
    if x in LimitRangeFind(e, l, kind) {
      var r :| r in l.range && x in Find(r, kind);
      FindExact(r, kind, x);
    }
    if x in LimitRangeSubterms(e, l) && x.Aggregate? {
      var r :| r in l.range && x in Subterms(r);
      FindExact(r, kind, x);
    }
  }

  /** The names of expr.atoms(Symbol): every symbol anywhere in e. */
  function AtomNames(e: Expr): set<string>
  {
    set t | t in Subterms(e) && t.Symbol? :: t.name
  }
}
