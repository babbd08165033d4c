/** The per-index loop (artemis/api/calculator.py:99-126, repeated at
    :217-244): at every index it picks each variable's record, builds the
    substitution for the solver and records the first root under the
    solution variable. The solver itself is a parameter. */
module PerIndex {
  import opened Common
  import opened Expressions
  import opened Vectors

  /** A value in the substitution: a scalar amount, or a whole vector. */
  datatype SubstValue = Scalar(v: Json) | Vector(vs: seq<Json>)

  /** The subs dict handed to evalf. */
  type Subst = map<string, SubstValue>

  /** One element of the response's solution list: a record per name. */
  type Row = map<string, Record>

  /** solve(expr.evalf(subs=subs), var) with each root rendered by str. */
  type Solver = (Expr, Subst, string) -> seq<string>

  /** The record a variable contributes at index i: its only record when it
      has exactly one (a constant), else record i; None where vector[i]
      raises IndexError. */
  function Pick(records: seq<Record>, i: nat): Option<Record>
  {
    if |records| == 1 then Some(records[0])
    else if i < |records| then Some(records[i])
    else None
  }

  /** result and subs after the inner loop over the variables bs at index i. */
  function RowState(bs: seq<Binding>, vectors: map<string, seq<Json>>, i: nat): Result<(Row, Subst)>
  {
    if bs == [] then Success((map[], map[]))
    else
      var prev := RowState(bs[..|bs| - 1], vectors, i);
      var b := bs[|bs| - 1];
      if prev.Failure? then prev
      else match Pick(b.records, i)
        case None => Failure(IndexOutOfRange)
        case Some(rec) =>
          if Amount !in rec || b.name !in vectors then Failure(KeyMissing)
          else
            var (result, subs) := prev.value;
            Success((result[b.name := rec],
                     subs[b.name := Scalar(rec[Amount])][VecName(b.name) := Vector(vectors[b.name])]))
  }

  /** The element of the solution list at index i. */
  function Entry(solve: Solver, e: Expr, bs: seq<Binding>, vectors: map<string, seq<Json>>,
                 solutionVar: string, i: nat): Result<Row>
  {
    var st := RowState(bs, vectors, i);
    if st.Failure? then Failure(st.error)
    else
      var roots := solve(e, st.value.1, solutionVar);
      if roots == [] then Failure(NoSolution)
      else Success(st.value.0[solutionVar := map[Amount := JString(roots[0])]])
  }

  /** The solution list for indices 0 .. n-1, or the first failure. */
  function Solutions(solve: Solver, e: Expr, bs: seq<Binding>, vectors: map<string, seq<Json>>,
                     solutionVar: string, n: int): Result<seq<Row>>
    decreases n
  {
    if n <= 0 then Success([])
    else
      var prev := Solutions(solve, e, bs, vectors, solutionVar, n - 1);
      if prev.Failure? then prev
      else match Entry(solve, e, bs, vectors, solutionVar, n - 1)
        case Failure(err) => Failure(err)
        case Success(row) => Success(prev.value + [row])
  }

  /** The variables' vectors as extraction leaves them. */
  predicate CoversNames(bs: seq<Binding>, vectors: map<string, seq<Json>>)
  {
    forall k :: 0 <= k < |bs| ==> bs[k].name in vectors
  }

  /** No variable is called like another variable's vector key. */
  predicate NoVecClash(bs: seq<Binding>)
  {
    forall j, k :: 0 <= j < |bs| && 0 <= k < |bs| ==> bs[j].name != VecName(bs[k].name)
  }

  // ---------------------------------------------------------------------
  // The inner loop over the variables

  lemma {:induction false} RowStatePrefixFailure(bs: seq<Binding>, vectors: map<string, seq<Json>>, i: nat, k: nat)
    requires k <= |bs| && RowState(bs[..k], vectors, i).Failure?
    ensures RowState(bs, vectors, i) == RowState(bs[..k], vectors, i)
    decreases |bs|
  {
    if k < |bs| {
      var init := bs[..|bs| - 1];
      assert init[..k] == bs[..k];
      RowStatePrefixFailure(init, vectors, i, k);
    } else {
      assert bs[..k] == bs;
    }
  }

  /** The inner loop gets through index i exactly when every variable is a
      constant or has a record at i. */
  lemma {:induction false} RowStateSucceeds(bs: seq<Binding>, vectors: map<string, seq<Json>>, i: nat)
    requires HasAmounts(bs) && CoversNames(bs, vectors)
    ensures RowState(bs, vectors, i).Success?
        <==> forall k :: 0 <= k < |bs| ==> |bs[k].records| == 1 || i < |bs[k].records|
  {
    if bs != [] {
      var init := bs[..|bs| - 1];
      RowStateSucceeds(init, vectors, i);
      assert forall k :: 0 <= k < |init| ==> init[k] == bs[k];
    }
  }

  /** One unfolding of a successful RowState: the earlier variables
      succeeded and the last one's record was picked. */
  lemma RowStateStep(bs: seq<Binding>, vectors: map<string, seq<Json>>, i: nat)
    requires bs != [] && RowState(bs, vectors, i).Success?
    ensures
      var prev, last := RowState(bs[..|bs| - 1], vectors, i), bs[|bs| - 1];
      && prev.Success?
      && Pick(last.records, i).Some?
      && Amount in Pick(last.records, i).value
      && last.name in vectors
      && RowState(bs, vectors, i).value
         == (prev.value.0[last.name := Pick(last.records, i).value],
             prev.value.1[last.name := Scalar(Pick(last.records, i).value[Amount])]
                         [VecName(last.name) := Vector(vectors[last.name])])
  {
  }

  lemma {:induction false} RowStatePicks(bs: seq<Binding>, vectors: map<string, seq<Json>>, i: nat)
    requires DistinctNames(bs)
    requires RowState(bs, vectors, i).Success?
    ensures RowState(bs, vectors, i).value.0.Keys == NameSet(bs)
    ensures forall k :: 0 <= k < |bs| ==>
              Pick(bs[k].records, i).Some?
              && RowState(bs, vectors, i).value.0[bs[k].name] == Pick(bs[k].records, i).value
  {
    if bs != [] {
      var init, last := bs[..|bs| - 1], bs[|bs| - 1];
      assert forall k :: 0 <= k < |init| ==> init[k] == bs[k];
      RowStateStep(bs, vectors, i);
      RowStatePicks(init, vectors, i);
      var prev := RowState(init, vectors, i).value.0;
      var row := RowState(bs, vectors, i).value.0;
      NameSetSnoc(bs);
      forall k | 0 <= k < |bs|
        ensures Pick(bs[k].records, i).Some? && row[bs[k].name] == Pick(bs[k].records, i).value
      {
        if k < |init| {
          assert init[k] == bs[k] && bs[k].name != last.name;
        }
      }
    }
  }

  /** At index i every variable's result record is its only record when it
      has one record (broadcast), otherwise its record i. */
  lemma RowStateInputs(bs: seq<Binding>, vectors: map<string, seq<Json>>, i: nat)
    requires DistinctNames(bs)
    requires RowState(bs, vectors, i).Success?
    ensures RowState(bs, vectors, i).value.0.Keys == NameSet(bs)
    ensures forall k :: 0 <= k < |bs| ==>
              var recs, row := bs[k].records, RowState(bs, vectors, i).value.0;
              || (|recs| == 1 && row[bs[k].name] == recs[0])
              || (|recs| != 1 && i < |recs| && row[bs[k].name] == recs[i])
  {
    RowStatePicks(bs, vectors, i);
  }

  /** At index i each variable's name is bound to the amount of the record
      it contributes, and its vector key to its whole vector, the same at
      every index -- provided no variable is named like another's vector key. */
  lemma {:induction false} RowStateSubst(bs: seq<Binding>, vectors: map<string, seq<Json>>, i: nat)
    requires DistinctNames(bs) && NoVecClash(bs)
    requires RowState(bs, vectors, i).Success?
    ensures forall k :: 0 <= k < |bs| ==>
              var (row, subs) := RowState(bs, vectors, i).value;
              && bs[k].name in row && Amount in row[bs[k].name]
              && bs[k].name in vectors
              && bs[k].name in subs && subs[bs[k].name] == Scalar(row[bs[k].name][Amount])
              && VecName(bs[k].name) in subs && subs[VecName(bs[k].name)] == Vector(vectors[bs[k].name])
  {
    if bs != [] {
      var init := bs[..|bs| - 1];
      assert forall k :: 0 <= k < |init| ==> init[k] == bs[k];
      RowStateSubst(init, vectors, i);
      var last := bs[|bs| - 1].name;
      forall k | 0 <= k < |init|
        ensures last != init[k].name && VecName(last) != init[k].name && last != VecName(init[k].name)
        ensures VecName(last) != VecName(init[k].name)
      {
        if VecName(last) == VecName(init[k].name) {
          VecNameInjective(last, init[k].name);
        }
      }
    }
  }

  lemma VecNameInjective(a: string, b: string)
    requires VecName(a) == VecName(b)
    ensures a == b
  {
    assert a == VecName(a)[..|a|];
  }

  /** The source's dict keys collide when one variable is called like
      another's vector key: a variable "x_vec" declared after "x" overwrites
      the vector of x in the substitution with its own scalar. */
  lemma VecKeyOverwritten(r0: Record, r1: Record, c: Record, vx: seq<Json>, vc: seq<Json>)
    requires Amount in r0 && Amount in r1 && Amount in c
    ensures
      var bs := [Binding("x", [r0, r1]), Binding("x_vec", [c])];
      var st := RowState(bs, map["x" := vx, "x_vec" := vc], 0);
      st.Success? && st.value.1["x_vec"] == Scalar(c[Amount])
  {
    var bs := [Binding("x", [r0, r1]), Binding("x_vec", [c])];
    var vectors := map["x" := vx, "x_vec" := vc];
    assert bs[..1][..0] == [];
    assert bs[..1] == [bs[0]];
    assert RowState(bs[..1][..0], vectors, 0) == Success((map[], map[]));
    assert "x" != "x_vec";
    assert RowState(bs[..1], vectors, 0).Success?;
  }

  /** The inner loop: collect each variable's record into result and its
      amount and vector into subs. */
  method BuildRow(bs: seq<Binding>, vectors: map<string, seq<Json>>, i: nat) returns (r: Result<(Row, Subst)>)
    ensures r == RowState(bs, vectors, i)
  {
    var result: Row := map[];
    var subs: Subst := map[];
    for k := 0 to |bs|
      invariant RowState(bs[..k], vectors, i) == Success((result, subs))
    {
      var varName := bs[k].name;
      var vector := bs[k].records;
      assert bs[..k + 1][..k] == bs[..k];
      var rec: Record;
      if |vector| == 1 {
        rec := vector[0];
      } else if i < |vector| {
        rec := vector[i];
      } else {
        RowStatePrefixFailure(bs, vectors, i, k + 1);
        return Failure(IndexOutOfRange);
      }
      result := result[varName := rec];
      if Amount !in rec || varName !in vectors {
        RowStatePrefixFailure(bs, vectors, i, k + 1);
        return Failure(KeyMissing);
      }
      subs := subs[varName := Scalar(rec[Amount])];
      subs := subs[VecName(varName) := Vector(vectors[varName])];
    }
    assert bs[..|bs|] == bs;
    return Success((result, subs));
  }

  // ---------------------------------------------------------------------
  // The outer loop over the indices

  /** One unfolding of Solutions at a positive count. */
  lemma SolutionsStep(solve: Solver, e: Expr, bs: seq<Binding>, vectors: map<string, seq<Json>>,
      solutionVar: string, n: int)
    requires n > 0
    ensures
      var prev := Solutions(solve, e, bs, vectors, solutionVar, n - 1);
      var entry := Entry(solve, e, bs, vectors, solutionVar, n - 1);
      Solutions(solve, e, bs, vectors, solutionVar, n)
      == if prev.Failure? then prev
         else if entry.Failure? then Failure(entry.error)
         else Success(prev.value + [entry.value])
  {
  }

  lemma {:induction false} SolutionsPrefixFailure(solve: Solver, e: Expr, bs: seq<Binding>,
      vectors: map<string, seq<Json>>, solutionVar: string, k: int, n: int)
    requires 0 <= k <= n && Solutions(solve, e, bs, vectors, solutionVar, k).Failure?
    ensures Solutions(solve, e, bs, vectors, solutionVar, n) == Solutions(solve, e, bs, vectors, solutionVar, k)
    decreases n
  {
    if k < n {
      SolutionsPrefixFailure(solve, e, bs, vectors, solutionVar, k, n - 1);
    }
  }

  /** The request yields a solution list exactly when every index in range
      yields an entry. */
  lemma {:induction false} SolutionsSucceed(solve: Solver, e: Expr, bs: seq<Binding>,
      vectors: map<string, seq<Json>>, solutionVar: string, n: int)
    ensures Solutions(solve, e, bs, vectors, solutionVar, n).Success?
        <==> forall i :: 0 <= i < n ==> Entry(solve, e, bs, vectors, solutionVar, i).Success?
    decreases n
  {
    if n > 0 {
      SolutionsStep(solve, e, bs, vectors, solutionVar, n);
      SolutionsSucceed(solve, e, bs, vectors, solutionVar, n - 1);
    }
  }

  /** A successful solution list has one entry per index, in index order,
      and none when the count is not positive. */
  lemma {:induction false} SolutionsRows(solve: Solver, e: Expr, bs: seq<Binding>,
      vectors: map<string, seq<Json>>, solutionVar: string, n: int)
    requires Solutions(solve, e, bs, vectors, solutionVar, n).Success?
    ensures |Solutions(solve, e, bs, vectors, solutionVar, n).value| == (if n > 0 then n else 0)
    ensures forall i :: 0 <= i < |Solutions(solve, e, bs, vectors, solutionVar, n).value| ==>
              Success(Solutions(solve, e, bs, vectors, solutionVar, n).value[i])
              == Entry(solve, e, bs, vectors, solutionVar, i)
    decreases n
  {
    if n > 0 {
      var prev := Solutions(solve, e, bs, vectors, solutionVar, n - 1);
      SolutionsStep(solve, e, bs, vectors, solutionVar, n);
      SolutionsRows(solve, e, bs, vectors, solutionVar, n - 1);
      var rows := Solutions(solve, e, bs, vectors, solutionVar, n).value;
      assert rows == prev.value + [Entry(solve, e, bs, vectors, solutionVar, n - 1).value];
      forall j | 0 <= j < |rows|
        ensures Success(rows[j]) == Entry(solve, e, bs, vectors, solutionVar, j)
      {
        if j < |prev.value| {
          assert rows[j] == prev.value[j];
        }
      }
    }
  }

  /** A successful entry holds every variable plus the solution variable.
      The solution variable's record is a fresh one whose element_amount is
      the text of the solver's first root; every other variable's record is
      the one it contributes at that index. */
  lemma EntryShape(solve: Solver, e: Expr, bs: seq<Binding>, vectors: map<string, seq<Json>>,
      solutionVar: string, i: nat)
    requires DistinctNames(bs)
    requires Entry(solve, e, bs, vectors, solutionVar, i).Success?
    ensures RowState(bs, vectors, i).Success?
    ensures
      var row := Entry(solve, e, bs, vectors, solutionVar, i).value;
      var roots := solve(e, RowState(bs, vectors, i).value.1, solutionVar);
      && row.Keys == NameSet(bs) + {solutionVar}
      && roots != []
      && row[solutionVar] == map[Amount := JString(roots[0])]
      && forall k :: 0 <= k < |bs| && bs[k].name != solutionVar ==>
           var recs := bs[k].records;
           || (|recs| == 1 && row[bs[k].name] == recs[0])
           || (|recs| != 1 && i < |recs| && row[bs[k].name] == recs[i])
  {
    RowStateInputs(bs, vectors, i);
  }

  /** There is no per-index fallback: if the solver finds no root at any
      index in range, the whole request fails and returns no list. */
  lemma NoRootFailsRequest(solve: Solver, e: Expr, bs: seq<Binding>, vectors: map<string, seq<Json>>,
      solutionVar: string, n: int, i: nat)
    requires i < n
    requires RowState(bs, vectors, i).Success?
    requires solve(e, RowState(bs, vectors, i).value.1, solutionVar) == []
    ensures Solutions(solve, e, bs, vectors, solutionVar, n).Failure?
  {
    assert Entry(solve, e, bs, vectors, solutionVar, i) == Failure(NoSolution);
    SolutionsSucceed(solve, e, bs, vectors, solutionVar, n);
  }

  /** The body of the outer loop at index i: build result and subs, solve,
      and record the first root under the solution variable. */
  method SolveAt(solve: Solver, e: Expr, bs: seq<Binding>, vectors: map<string, seq<Json>>,
      solutionVar: string, i: nat) returns (r: Result<Row>)
    ensures r == Entry(solve, e, bs, vectors, solutionVar, i)
  {
    var state := BuildRow(bs, vectors, i);
    if state.Failure? {
      return Failure(state.error);
    }
    var (result, subs) := state.value;
    var roots := solve(e, subs, solutionVar);
    if roots == [] {
      return Failure(NoSolution);
    }
    result := result[solutionVar := map[Amount := JString(roots[0])]];
    return Success(result);
  }

  /** The outer loop: one entry per index 0 .. int(max_length)-1, or the
      first failure. */
  method SolveEachIndex(solve: Solver, e: Expr, bs: seq<Binding>, vectors: map<string, seq<Json>>,
      solutionVar: string, maxLength: int) returns (r: Result<seq<Row>>)
    ensures r == Solutions(solve, e, bs, vectors, solutionVar, maxLength)
  {
    var solutions: seq<Row> := [];
    var count := if maxLength > 0 then maxLength else 0;
    for i := 0 to count
      invariant Solutions(solve, e, bs, vectors, solutionVar, i) == Success(solutions)
    {
      var entry := SolveAt(solve, e, bs, vectors, solutionVar, i);
      assert Solutions(solve, e, bs, vectors, solutionVar, i + 1)
          == if entry.Failure? then Failure(entry.error) else Success(solutions + [entry.value]);
      if entry.Failure? {
        SolutionsPrefixFailure(solve, e, bs, vectors, solutionVar, i + 1, maxLength);
        return Failure(entry.error);
      }
      solutions := solutions + [entry.value];
    }
    return Success(solutions);
  }
}
