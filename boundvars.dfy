/** The collection of Sum and Product bound variables into sum_vars
    (artemis/api/calculator.py:62-79, repeated at :180-197). The list is
    global to the formula: a name bound by two aggregates is recorded once,
    with no per-aggregate scope. Neither handler reads the list afterwards. */
module BoundVars {
  import opened Common
  import opened Expressions

  /** The first components of an aggregate's limit arguments, in argument order. */
  function LimitBounds(limits: seq<Limit>): seq<Expr>
  {
    seq(|limits|, k requires 0 <= k < |limits| => limits[k].bound)
  }

  /** The bound variables of the aggregates in aggs, in iteration order,
      repeats kept. */
  function AllBounds(aggs: seq<Expr>): seq<Expr>
    requires forall a :: a in aggs ==> a.Aggregate?
  {
    if aggs == [] then []
    else AllBounds(aggs[..|aggs| - 1]) + LimitBounds(aggs[|aggs| - 1].limits)
  }

  /** A bound variable appears in the list of some aggregates exactly when
      one of them has it as the first component of a limit argument. */
  lemma {:induction false} AllBoundsMembership(aggs: seq<Expr>, x: Expr)
    requires forall a :: a in aggs ==> a.Aggregate?
    ensures x in AllBounds(aggs) <==> exists a :: a in aggs && x in LimitBounds(a.limits)
  {
    if aggs != [] {
      var init := aggs[..|aggs| - 1];
      assert aggs == init + [aggs[|aggs| - 1]];
      AllBoundsMembership(init, x);
    }
  }

  /** xs with every repeat dropped, each element kept where it first occurs. */
  function Dedup(xs: seq<Expr>): seq<Expr>
  {
    if xs == [] then []
    else
      var d := Dedup(xs[..|xs| - 1]);
      if xs[|xs| - 1] in d then d else d + [xs[|xs| - 1]]
  }

  /** Where x first occurs in xs. */
  function FirstIndex(xs: seq<Expr>, x: Expr): (k: nat)
    requires x in xs
    ensures k < |xs| && xs[k] == x && x !in xs[..k]
  {
    if xs[0] == x then 0
    else
      var k := FirstIndex(xs[1..], x);
      assert xs[..k + 1] == [xs[0]] + xs[1..][..k];
      k + 1
  }

  lemma FirstIndexUnique(xs: seq<Expr>, x: Expr, k: nat)
    requires k < |xs| && xs[k] == x && x !in xs[..k]
    ensures FirstIndex(xs, x) == k
    decreases k
  {
    if k > 0 {
      assert xs[..k][0] == xs[0];
      assert xs[1..][..k - 1] == xs[1..k];
      FirstIndexUnique(xs[1..], x, k - 1);
    }
  }

  /** Appending never moves the first occurrence of an element already there. */
  lemma FirstIndexAppend(xs: seq<Expr>, y: Expr, x: Expr)
    requires x in xs
    ensures FirstIndex(xs + [y], x) == FirstIndex(xs, x)
  {
    var k := FirstIndex(xs, x);
    assert (xs + [y])[..k] == xs[..k];
    FirstIndexUnique(xs + [y], x, k);
  }

  /** First-seen deduplication keeps each element of xs exactly once, adds
      nothing, and orders the elements by where they first occur in xs. */
  lemma {:induction false} DedupSpec(xs: seq<Expr>)
    ensures Distinct(Dedup(xs))
    ensures forall x :: x in Dedup(xs) <==> x in xs
    ensures forall i, j :: 0 <= i < j < |Dedup(xs)| ==>
              FirstIndex(xs, Dedup(xs)[i]) < FirstIndex(xs, Dedup(xs)[j])
  {
    if xs != [] {
      var p, y := xs[..|xs| - 1], xs[|xs| - 1];
      assert xs == p + [y];
      var d := Dedup(p);
      DedupSpec(p);
      forall x | x in p
        ensures FirstIndex(xs, x) == FirstIndex(p, x)
      {
        FirstIndexAppend(p, y, x);
      }
      if y !in d {
        assert y !in p;
        FirstIndexUnique(xs, y, |p|);
        forall i, j | 0 <= i < j < |d + [y]|
          ensures FirstIndex(xs, (d + [y])[i]) < FirstIndex(xs, (d + [y])[j])
        {
          if j < |d| {
            assert (d + [y])[i] == d[i] && (d + [y])[j] == d[j];
          } else {
            assert (d + [y])[i] == d[i] && d[i] in p;
          }
        }
      }
    }
  }

  /** The dedup of a concatenation puts every element of the first part
      before every element found only in the second. */
  lemma FirstPartFirst(a: seq<Expr>, b: seq<Expr>)
    ensures forall i, j ::
              (0 <= i < |Dedup(a + b)| && 0 <= j < |Dedup(a + b)|
               && Dedup(a + b)[i] in a && Dedup(a + b)[j] !in a) ==> i < j
  {
    var xs := a + b;
    var d := Dedup(xs);
    DedupSpec(xs);
    forall i, j | 0 <= i < |d| && 0 <= j < |d| && d[i] in a && d[j] !in a
      ensures i < j
    {
      var fi := FirstIndex(a, d[i]);
      assert xs[fi] == d[i] && d[i] !in xs[..fi] by {
        assert xs[..fi] == a[..fi];
      }
      FirstIndexUnique(xs, d[i], fi);
      var fj := FirstIndex(xs, d[j]);
      assert fj >= |a|;
      assert i != j;
    }
  }

  /** One pass of the inner loop: walk the arguments of aggregate s, skip
      argument 0 (the body) and append the first component of each limit
      argument that is not yet in the list. */
  method AddLimitBounds(vars: seq<Expr>, ghost seen: seq<Expr>, s: Expr) returns (vars': seq<Expr>)
    requires s.Aggregate?
    requires vars == Dedup(seen)
    ensures vars' == Dedup(seen + LimitBounds(s.limits))
  {
    vars' := vars;
    ghost var bounds := LimitBounds(s.limits);
    var argCount := 1 + |s.limits|;
    assert seen + bounds[..0] == seen;
    for i := 0 to argCount
      invariant vars' == Dedup(seen + bounds[..if i == 0 then 0 else i - 1])
    {
      if i > 0 {
        var v := s.limits[i - 1].bound;
        ghost var before := seen + bounds[..i - 1];
        assert seen + bounds[..i] == before + [v];
        assert (before + [v])[..|before|] == before;
        if v !in vars' {
          vars' := vars' + [v];
        }
      }
    }
    assert bounds[..argCount - 1] == bounds;
  }

  /** sum_vars: the bound variables of the Sum nodes, then of the Product
      nodes, each recorded once where first seen. */
  method CollectBoundVars(sums: seq<Expr>, products: seq<Expr>) returns (vars: seq<Expr>)
    requires forall s :: s in sums ==> s.Aggregate?
    requires forall s :: s in products ==> s.Aggregate?
    ensures vars == Dedup(AllBounds(sums) + AllBounds(products))
    ensures Distinct(vars)
    ensures forall x :: x in vars <==> x in AllBounds(sums) || x in AllBounds(products)
    ensures forall i, j ::
              (0 <= i < |vars| && 0 <= j < |vars|
               && vars[i] in AllBounds(sums) && vars[j] !in AllBounds(sums)) ==> i < j
  {
    vars := [];
    for k := 0 to |sums|
      invariant vars == Dedup(AllBounds(sums[..k]))
    {
      assert sums[..k + 1][..k] == sums[..k];
      vars := AddLimitBounds(vars, AllBounds(sums[..k]), sums[k]);
    }
    assert sums[..|sums|] == sums;
    ghost var fromSums := AllBounds(sums);
    assert fromSums + AllBounds(products[..0]) == fromSums;
    for k := 0 to |products|
      invariant vars == Dedup(fromSums + AllBounds(products[..k]))
    {
      assert products[..k + 1][..k] == products[..k];
      assert fromSums + AllBounds(products[..k + 1])
          == (fromSums + AllBounds(products[..k])) + LimitBounds(products[k].limits);
      vars := AddLimitBounds(vars, fromSums + AllBounds(products[..k]), products[k]);
    }
    assert products[..|products|] == products;
    DedupSpec(fromSums + AllBounds(products));
    FirstPartFirst(fromSums, AllBounds(products));
  }

  lemma OneLimitBound(x: Expr, l: Limit)
    ensures AllBounds([Aggregate(SumOp, x, [l])]) == [l.bound]
  {
    var agg := Aggregate(SumOp, x, [l]);
    assert [agg][..0] == [];
    assert LimitBounds(agg.limits) == [l.bound];
  }

  /** The list has no per-aggregate scope: two sums that both range over i
      contribute one entry between them. */
  lemma ReusedBoundNameRecordedOnce(x: Expr, y: Expr, n: Expr, m: Expr)
    ensures
      var i := Symbol("i");
      var first := Aggregate(SumOp, x, [Limit(i, [Symbol("1"), n])]);
      var second := Aggregate(SumOp, y, [Limit(i, [Symbol("1"), m])]);
      Dedup(AllBounds([first, second])) == [i]
  {
    var i := Symbol("i");
    var first := Aggregate(SumOp, x, [Limit(i, [Symbol("1"), n])]);
    var second := Aggregate(SumOp, y, [Limit(i, [Symbol("1"), m])]);
    OneLimitBound(x, Limit(i, [Symbol("1"), n]));
    assert [first, second][..1] == [first];
    assert LimitBounds(second.limits) == [i];
    var both := AllBounds([first, second]);
    assert both == [i] + [i];
    assert both[..1] == [i] && both[1] == i;
    assert [i][..0] == [];
    assert Dedup([i]) == [i];
  }
}
