/** The two request handlers, LatexCalculator.get and SimpleCalculator.get
    (artemis/api/calculator.py:22-132 and :137-250). They differ only in how
    the formula text is cleaned and parsed; from the vector extraction on,
    both run the same steps, which are modelled once here and called from
    both. sympy is a parameter: a bundle of the library calls the handlers
    make. */
module Calculator {
  import opened Common
  import opened Strings
  import opened Preprocess
  import opened Expressions
  import opened BoundVars
  import opened Subscripts
  import opened Vectors
  import opened PerIndex

  /** The library calls the handlers make. A parser answers None where it
      would raise. */
  datatype Sympy = Sympy(
    latex2sympy: string -> Option<Expr>,
    parseExpr: string -> Option<Expr>,
    /** Eq(*args), None where the arguments do not make an equation */
    eq: seq<Expr> -> Option<Expr>,
    /** expr.subs(name, replacement) */
    subs: (Expr, string, Expr) -> Expr,
    /** whether IndexedBase(base)[text] succeeds: sympify accepts the
        subscript text (it rejects "" and Python keywords such as "in") */
    sympifies: string -> bool,
    /** solve(expr.evalf(subs=subs), var), each root rendered by str */
    solve: Solver)

  /** The query parameters once decoded: variableVector as bindings in
      request order, the formula text, int(maxVectorLength) and solutionVar. */
  datatype Request = Request(variables: seq<Binding>, formula: string, maxLength: int, solutionVar: string)

  /** atoms lists every element of s once, in some order. */
  ghost predicate Enumerates<T(!new)>(atoms: seq<T>, s: set<T>)
  {
    Distinct(atoms) && forall a :: a in atoms <==> a in s
  }

  /** Iterating over a Python set: every element once, in an order the
      program does not choose. */
  method Enumerate<T(==,!new)>(s: set<T>) returns (xs: seq<T>)
    ensures Enumerates(xs, s)
  {
    xs := [];
    var rest := s;
    while rest != {}
      invariant forall x :: x in s <==> x in xs || x in rest
      invariant forall x :: x in xs ==> x !in rest
      invariant Distinct(xs)
      decreases |rest|
    {
      var x :| x in rest;
      xs := xs + [x];
      rest := rest - {x};
    }
  }

  /** The response for the parsed formula e when the atom loop visits the
      symbol names in the order atoms. */
  function Answer(sp: Sympy, e: Expr, bs: seq<Binding>, atoms: seq<string>, solutionVar: string,
                  maxLength: int): Result<seq<Row>>
    requires DistinctNames(bs) && HasAmounts(bs)
  {
    match Rewritten(sp.subs, sp.sympifies, e, atoms, Names(bs))
    case Failure(err) => Failure(err)
    case Success(e') => Solutions(sp.solve, e', bs, CleanVectors(bs), solutionVar, maxLength)
  }

  /** A successful response has one entry per index below maxLength, and
      each entry holds every variable plus the solution variable. */
  lemma AnswerShape(sp: Sympy, e: Expr, bs: seq<Binding>, atoms: seq<string>, solutionVar: string,
                    maxLength: int)
    requires DistinctNames(bs) && HasAmounts(bs)
    requires Answer(sp, e, bs, atoms, solutionVar, maxLength).Success?
    ensures
      var rows := Answer(sp, e, bs, atoms, solutionVar, maxLength).value;
      && |rows| == (if maxLength > 0 then maxLength else 0)
      && forall i :: 0 <= i < |rows| ==> rows[i].Keys == NameSet(bs) + {solutionVar}
  {
    var e' := Rewritten(sp.subs, sp.sympifies, e, atoms, Names(bs)).value;
    var vectors := CleanVectors(bs);
    SolutionsRows(sp.solve, e', bs, vectors, solutionVar, maxLength);
    var rows := Answer(sp, e, bs, atoms, solutionVar, maxLength).value;
    forall i | 0 <= i < |rows|
      ensures rows[i].Keys == NameSet(bs) + {solutionVar}
    {
      EntryShape(sp.solve, e', bs, vectors, solutionVar, i);
    }
  }

  /** When no symbol of the formula carries a variable's name and an
      underscore, the unspecified set order cannot change the response. */
  lemma AnswerOrderIrrelevantWithoutSubscripts(sp: Sympy, e: Expr, bs: seq<Binding>,
      atoms1: seq<string>, atoms2: seq<string>, solutionVar: string, maxLength: int)
    requires DistinctNames(bs) && HasAmounts(bs)
    requires Enumerates(atoms1, AtomNames(e)) && Enumerates(atoms2, AtomNames(e))
    requires forall a, k :: a in AtomNames(e) && 0 <= k < |bs| ==> !StartsWith(a, bs[k].name + "_")
    ensures Answer(sp, e, bs, atoms1, solutionVar, maxLength)
         == Answer(sp, e, bs, atoms2, solutionVar, maxLength)
    ensures Replay(sp.subs, e, Rewrites(atoms1, Names(bs))) == e
    ensures Rewritten(sp.subs, sp.sympifies, e, atoms1, Names(bs)) == Success(e)
  {
    NoSubscriptedSymbolNoChange(sp.subs, e, atoms1, Names(bs));
    NoSubscriptedSymbolNoChange(sp.subs, e, atoms2, Names(bs));
  }

  /** A symbol that carries, for one of the variables, a subscript text
      sympify rejects makes the whole request fail, whatever the order in
      which the symbols are visited. */
  lemma RejectedSubscriptFailsRequest(sp: Sympy, e: Expr, bs: seq<Binding>, atoms: seq<string>,
                                      solutionVar: string, maxLength: int, a: string, k: nat)
    requires DistinctNames(bs) && HasAmounts(bs)
    requires a in atoms && k < |bs| && SubscriptOf(a, bs[k].name).Some?
    requires !sp.sympifies(SubscriptOf(a, bs[k].name).value)
    ensures Answer(sp, e, bs, atoms, solutionVar, maxLength) == Failure(BadSubscript)
  {
    assert Names(bs)[k] == bs[k].name;
    RewrittenFails(sp.subs, sp.sympifies, e, atoms, Names(bs));
  }

  /** The steps after parsing (lines 58-126): collect the bound variables
      of every Sum and Product, rewrite subscripted symbols, then solve at
      every index. sumVars is computed as in the source and not used. */
  method Evaluate(sp: Sympy, e: Expr, bs: seq<Binding>, vectors: map<string, seq<Json>>,
                  solutionVar: string, maxLength: int)
    returns (r: Result<seq<Row>>, sumVars: seq<Expr>)
    requires DistinctNames(bs) && HasAmounts(bs)
    requires vectors == CleanVectors(bs)
    ensures Distinct(sumVars)
    ensures forall x :: x in sumVars <==>
              exists s :: (s in Find(e, SumOp) || s in Find(e, ProductOp)) && x in LimitBounds(s.limits)
    ensures exists atoms :: Enumerates(atoms, AtomNames(e)) && r == Answer(sp, e, bs, atoms, solutionVar, maxLength)
  {
    var sums := Enumerate(Find(e, SumOp));
    var products := Enumerate(Find(e, ProductOp));
    sumVars := CollectBoundVars(sums, products);
    forall x
      ensures x in sumVars <==>
                exists s :: (s in Find(e, SumOp) || s in Find(e, ProductOp)) && x in LimitBounds(s.limits)
    {
      AllBoundsMembership(sums, x);
      AllBoundsMembership(products, x);
    }
    var atoms := Enumerate(AtomNames(e));
    var names := Names(bs);
    var rewritten := RewriteSubscripts(sp.subs, sp.sympifies, e, atoms, names);
    if rewritten.Failure? {
      r := Failure(rewritten.error);
    } else {
      r := SolveEachIndex(sp.solve, rewritten.value, bs, vectors, solutionVar, maxLength);
    }
    assert Enumerates(atoms, AtomNames(e)) && r == Answer(sp, e, bs, atoms, solutionVar, maxLength);
  }

  /** Eq(*map(parse_expr, sides)): the parsed sides, or None when a side
      fails to parse. */
  function ParseEach(parse: string -> Option<Expr>, sides: seq<string>): (parsed: Option<seq<Expr>>)
    ensures parsed.Some? <==> forall k :: 0 <= k < |sides| ==> parse(sides[k]).Some?
    ensures parsed.Some? ==>
              |parsed.value| == |sides| && forall k :: 0 <= k < |sides| ==> parsed.value[k] == parse(sides[k]).value
  {
    if sides == [] then Some([])
    else
      var init := ParseEach(parse, sides[..|sides| - 1]);
      var last := parse(sides[|sides| - 1]);
      if init.None? || last.None? then None
      else Some(init.value + [last.value])
  }

  /** The formula SimpleCalculator solves: the cleaned text cut at every
      "=", each side parsed, the sides made into an equation. */
  function SimpleFormula(sp: Sympy, formula: string): Option<Expr>
  {
    match ParseEach(sp.parseExpr, SimpleSides(formula))
    case None => None
    case Some(args) => sp.eq(args)
  }

  /** LatexCalculator.get. Fails with KeyError when a record lacks
      element_amount, before the formula is parsed; otherwise parses the
      cleaned formula and answers for some order of its symbols. */
  method LatexCalculator(sp: Sympy, req: Request) returns (r: Result<seq<Row>>)
    requires DistinctNames(req.variables)
    ensures !HasAmounts(req.variables) ==> r == Failure(KeyMissing)
    ensures HasAmounts(req.variables) && sp.latex2sympy(LatexClean(req.formula)).None? ==> r == Failure(ParseFailed)
    ensures HasAmounts(req.variables) && sp.latex2sympy(LatexClean(req.formula)).Some? ==>
              exists atoms :: Enumerates(atoms, AtomNames(sp.latex2sympy(LatexClean(req.formula)).value))
                && r == Answer(sp, sp.latex2sympy(LatexClean(req.formula)).value, req.variables, atoms,
                               req.solutionVar, req.maxLength)
    ensures r.Success? ==> |r.value| == (if req.maxLength > 0 then req.maxLength else 0)
    ensures r.Success? ==> forall i :: 0 <= i < |r.value| ==>
              r.value[i].Keys == NameSet(req.variables) + {req.solutionVar}
  {
    var bs := req.variables;
    var latexClean := StripEscapedSpaces(req.formula);
    latexClean := Replace(latexClean, "=", "==");
    var vectors := ExtractVectors(bs);
    if vectors.Failure? {
      return Failure(vectors.error);
    }
    var parsed := sp.latex2sympy(latexClean);
    if parsed.None? {
      return Failure(ParseFailed);
    }
    var e := parsed.value;
    var sumVars;
    r, sumVars := Evaluate(sp, e, bs, vectors.value, req.solutionVar, req.maxLength);
    ghost var atoms :| Enumerates(atoms, AtomNames(e)) && r == Answer(sp, e, bs, atoms, req.solutionVar, req.maxLength);
    if r.Success? {
      AnswerShape(sp, e, bs, atoms, req.solutionVar, req.maxLength);
    }
  }

  /** SimpleCalculator.get: the same as LatexCalculator.get except for how
      the formula is cleaned and parsed. */
  method SimpleCalculator(sp: Sympy, req: Request) returns (r: Result<seq<Row>>)
    requires DistinctNames(req.variables)
    ensures !HasAmounts(req.variables) ==> r == Failure(KeyMissing)
    ensures HasAmounts(req.variables) && SimpleFormula(sp, req.formula).None? ==> r == Failure(ParseFailed)
    ensures HasAmounts(req.variables) && SimpleFormula(sp, req.formula).Some? ==>
              exists atoms :: Enumerates(atoms, AtomNames(SimpleFormula(sp, req.formula).value))
                && r == Answer(sp, SimpleFormula(sp, req.formula).value, req.variables, atoms,
                               req.solutionVar, req.maxLength)
    ensures r.Success? ==> |r.value| == (if req.maxLength > 0 then req.maxLength else 0)
    ensures r.Success? ==> forall i :: 0 <= i < |r.value| ==>
              r.value[i].Keys == NameSet(req.variables) + {req.solutionVar}
  {
    var bs := req.variables;
    var latexClean := StripEscapedSpaces(req.formula);
    latexClean := Replace(latexClean, "^", "**");
    var vectors := ExtractVectors(bs);
    if vectors.Failure? {
      return Failure(vectors.error);
    }
    var sides := Split(latexClean, '=');
    var args := ParseEach(sp.parseExpr, sides);
    if args.None? {
      return Failure(ParseFailed);
    }
    var parsed := sp.eq(args.value);
    if parsed.None? {
      return Failure(ParseFailed);
    }
    var e := parsed.value;
    var sumVars;
    r, sumVars := Evaluate(sp, e, bs, vectors.value, req.solutionVar, req.maxLength);
    ghost var atoms :| Enumerates(atoms, AtomNames(e)) && r == Answer(sp, e, bs, atoms, req.solutionVar, req.maxLength);
    if r.Success? {
      AnswerShape(sp, e, bs, atoms, req.solutionVar, req.maxLength);
    }
  }
}
