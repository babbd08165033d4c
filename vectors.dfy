/** The request's variables and the extraction of each variable's vector of
    element_amount values (artemis/api/calculator.py:40-52, repeated at
    :155-167). */
module Vectors {
  import opened Common

  /** One entry of variable_vector: a variable name and its records, in
      the order the request lists them. */
  datatype Binding = Binding(name: string, records: seq<Record>)

  /** The variable names in dict order. */
  function Names(bs: seq<Binding>): seq<string>
  {
    seq(|bs|, k requires 0 <= k < |bs| => bs[k].name)
  }

  function NameSet(bs: seq<Binding>): set<string>
  {
    set k | 0 <= k < |bs| :: bs[k].name
  }

  lemma NameSetSnoc(bs: seq<Binding>)
    requires bs != []
    ensures NameSet(bs) == NameSet(bs[..|bs| - 1]) + {bs[|bs| - 1].name}
  {
    var init := bs[..|bs| - 1];
    forall x | x in NameSet(bs) ensures x in NameSet(init) + {bs[|bs| - 1].name} {
      var k :| 0 <= k < |bs| && bs[k].name == x;
      if k < |init| { assert init[k] == bs[k]; }
    }
    forall x | x in NameSet(init) ensures x in NameSet(bs) {
      var k :| 0 <= k < |init| && init[k].name == x;
      assert bs[k] == init[k];
    }
  }

  /** Dict keys are unique. */
  predicate DistinctNames(bs: seq<Binding>)
  {
    forall i, j :: 0 <= i < |bs| && 0 <= j < |bs| && i != j ==> bs[i].name != bs[j].name
  }

  /** Every record carries element_amount. */
  predicate HasAmount(records: seq<Record>)
  {
    forall j :: 0 <= j < |records| ==> Amount in records[j]
  }

  /** Every record of every variable carries element_amount. */
  predicate HasAmounts(bs: seq<Binding>)
  {
    forall k :: 0 <= k < |bs| ==> HasAmount(bs[k].records)
  }

  /** The element_amount of each record, in record order. */
  function AmountVector(records: seq<Record>): seq<Json>
    requires HasAmount(records)
  {
    seq(|records|, j requires 0 <= j < |records| && Amount in records[j] => records[j][Amount])
  }

  /** var_vectors_clean as the extraction leaves it: each variable's name
      mapped to its vector of amounts. */
  function CleanVectors(bs: seq<Binding>): map<string, seq<Json>>
    requires DistinctNames(bs) && HasAmounts(bs)
  {
    map k | 0 <= k < |bs| :: bs[k].name := AmountVector(bs[k].records)
  }

  /** Every variable's vector has one entry per record, entry j being
      record j's element_amount, and the map holds exactly the variables. */
  lemma CleanVectorsSpec(bs: seq<Binding>)
    requires DistinctNames(bs) && HasAmounts(bs)
    ensures CleanVectors(bs).Keys == NameSet(bs)
    ensures forall k :: 0 <= k < |bs| ==>
              && |CleanVectors(bs)[bs[k].name]| == |bs[k].records|
              && forall j :: 0 <= j < |bs[k].records| ==>
                   CleanVectors(bs)[bs[k].name][j] == bs[k].records[j][Amount]
  {
    forall k | 0 <= k < |bs|
      ensures CleanVectors(bs)[bs[k].name] == AmountVector(bs[k].records)
    {
    }
  }

  /** A map holding exactly the variables, each with its vector, is the
      extraction's result. */
  lemma CleanVectorsUnique(bs: seq<Binding>, m: map<string, seq<Json>>)
    requires DistinctNames(bs) && HasAmounts(bs)
    requires m.Keys == NameSet(bs)
    requires forall k :: 0 <= k < |bs| ==> m[bs[k].name] == AmountVector(bs[k].records)
    ensures m == CleanVectors(bs)
  {
    var c := CleanVectors(bs);
    assert c.Keys == m.Keys;
    forall x | x in m.Keys
      ensures m[x] == c[x]
    {
      var k :| 0 <= k < |bs| && bs[k].name == x;
    }
  }

  /** The extraction loop. It fails with KeyError exactly when some record
      lacks element_amount, and otherwise yields the vectors. */
  method ExtractVectors(bs: seq<Binding>) returns (r: Result<map<string, seq<Json>>>)
    requires DistinctNames(bs)
    ensures r.Success? <==> HasAmounts(bs)
    ensures r.Failure? ==> r.error == KeyMissing
    ensures r.Success? ==> r.value == CleanVectors(bs)
  {
    var clean: map<string, seq<Json>> := map[];
    for k := 0 to |bs|
      invariant clean.Keys == NameSet(bs[..k])
      invariant forall m :: 0 <= m < k ==> HasAmount(bs[m].records)
      invariant forall m :: 0 <= m < k ==> clean[bs[m].name] == AmountVector(bs[m].records)
    {
      var vectorArray := ExtractAmounts(bs[k].records);
      if vectorArray.Failure? {
        assert !HasAmount(bs[k].records);
        return Failure(KeyMissing);
      }
      ghost var before := clean;
      clean := clean[bs[k].name := vectorArray.value];
      forall m | 0 <= m < k
        ensures clean[bs[m].name] == before[bs[m].name]
      {
        assert bs[m].name != bs[k].name;
      }
      assert bs[..k + 1][..k] == bs[..k];
      NameSetSnoc(bs[..k + 1]);
    }
    assert bs[..|bs|] == bs;
    CleanVectorsUnique(bs, clean);
    return Success(clean);
  }

  /** The inner loop: one variable's amounts, or KeyError. */
  method ExtractAmounts(records: seq<Record>) returns (r: Result<seq<Json>>)
    ensures r.Success? <==> HasAmount(records)
    ensures r.Failure? ==> r.error == KeyMissing
    ensures r.Success? ==> r.value == AmountVector(records)
  {
    var vectorArray: seq<Json> := [];
    for j := 0 to |records|
      invariant |vectorArray| == j
      invariant forall i :: 0 <= i < j ==> Amount in records[i] && vectorArray[i] == records[i][Amount]
    {
      if Amount !in records[j] {
        return Failure(KeyMissing);
      }
      vectorArray := vectorArray + [records[j][Amount]];
    }
    return Success(vectorArray);
  }
}
