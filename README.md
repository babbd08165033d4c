# Artemis calculator: a Dafny model

Artemis exposes two HTTP endpoints that solve an equation once for each
position of a set of data vectors. `LatexCalculator.get` takes the formula
as LaTeX. `SimpleCalculator.get` takes it as plain Python-style text.
A request carries four things:

- `variableVector`: a JSON object mapping each variable name to a list of
  records, each with an `element_amount`;
- the formula text;
- `maxVectorLength`;
- `solutionVar`, the variable to solve for.

Each handler runs these steps:

1. Clean the formula text:
   - drop every `\ ` (backslash and space);
   - in LaTeX, turn `=` into `==`;
   - in plain text, turn `^` into `**`.
2. Collect each variable's vector of `element_amount` values.
3. Parse the formula. LaTeX goes through `latex2sympy`. Plain text is split
   at `=`, each side goes through `parse_expr`, and the sides are joined
   with `Eq`.
4. Record the bound variables of every `Sum` and `Product`.
5. Replace each subscripted symbol `x_{k}` or `x_k` of a known variable
   `x` by the indexed reference `x_vec[k]`. Building that reference
   raises when sympify cannot parse `k`.
6. For each index `i` below `maxVectorLength`:
   - substitute every variable's `i`-th amount into the formula;
     a variable with a single record is a constant and is broadcast to
     every index;
   - substitute every vector under `name_vec`;
   - solve, and record the first root as text.

Any exception aborts the whole request.

The model follows these steps module by module:

- `Common`: JSON values, records, and the errors a request can end in.
- `Strings`: the Python string built-ins the handlers use, with Python
  semantics. This covers `replace`, `split`, `startswith`, `find` returning
  -1, and slicing with negative and clamped bounds.
- `Preprocess`: the formula cleaning and the plain-text split.
- `Expressions`: the parsed formula as a tree. `find(Sum)`,
  `find(Product)` and `atoms(Symbol)` are defined on it.
- `BoundVars`: the `sum_vars` loop.
- `Subscripts`: reading a subscript off a symbol name, and the rewriting loop.
- `Vectors`: the extraction of the amount vectors.
- `PerIndex`: the substitution and solving loop.
- `Calculator`: the two handlers.

The two handlers repeat the same code after parsing. The model factors that
code into one method, `Calculator.Evaluate`, which both handler methods call.

Outside code is handled as follows:

- **sympy and latex2sympy** are parameters, bundled in `Calculator.Sympy`:
  - the two parsers, which answer `None` where they would raise;
  - `Eq`;
  - `subs`;
  - whether sympify accepts a subscript text, which decides whether
    `IndexedBase(name)[subscript]` raises;
  - `solve` composed with `evalf` and `str`, giving a possibly empty list
    of root texts.

  The model proves what the handlers do with these calls' results, and
  nothing about the calls themselves.
- **Python set iteration order** (`find` and `atoms` return sets) is not
  chosen by the program. `Calculator.Enumerate` picks some order, and the
  handlers' contracts hold for every order.
- **Dict order** is request order: the variables are a sequence of bindings
  whose names are distinct.

## Model

| member | source | states |
|---|---|---|
| Strings.ReplaceSingleChar | artemis/api/calculator.py:36 | `str.replace` with a one-character pattern replaces every occurrence of that character and leaves all other characters where they are. |
| Strings.ReplaceKeepsOthers | artemis/api/calculator.py:35 | A replacement whose pattern and replacement agree outside a character set leaves every character outside that set unchanged and in order. |
| Strings.Split | artemis/api/calculator.py:172 | `split("=")` gives one more piece than the text has `=` characters, and no piece contains `=`. |
| Strings.JoinSplit | artemis/api/calculator.py:172 | Joining the split pieces with the separator gives the text back. |
| Strings.SplitJoin | artemis/api/calculator.py:172 | Splitting separator-free pieces joined by the separator gives the pieces back. |
| Strings.FindChar | artemis/api/calculator.py:93 | `find` returns -1 exactly when the character is absent; otherwise it returns the index of its first occurrence. |
| Preprocess.StripKeepsOtherChars | artemis/api/calculator.py:35 | Removing `\ ` deletes only backslashes and spaces, keeps every other character in order with its count, and never lengthens the text. |
| Preprocess.StripIsSinglePass | artemis/api/calculator.py:35 | Removal is one left-to-right pass: a `\ ` formed by the removal itself stays in the output. |
| Preprocess.LatexCleanDoublesEquals | artemis/api/calculator.py:35-36 | LaTeX cleaning doubles each `=` of the stripped text and changes nothing else. The result has twice as many `=` as the raw formula. |
| Preprocess.SimpleCleanExpandsCarets | artemis/api/calculator.py:150-151 | Plain-text cleaning turns each `^` into `**` and changes nothing else. No `^` remains, the `*` count rises by two per `^`, and the `=` count is that of the raw formula. |
| Preprocess.SimpleSidesSplitCleanFormula | artemis/api/calculator.py:171-172 | The sides handed to `parse_expr` number one more than the formula's `=` characters and contain no `=`. Joined with `=`, they give back the cleaned text. |
| Expressions.FindExact | artemis/api/calculator.py:59-60 | The walk behind `find(Sum)` and `find(Product)` returns every node of the requested kind anywhere in the formula, including inside limits, and nothing else. |
| Vectors.ExtractAmounts | artemis/api/calculator.py:49-50 | The inner loop fails with KeyError exactly when a record lacks `element_amount`. Otherwise it yields the amounts in record order. |
| Vectors.ExtractVectors | artemis/api/calculator.py:44-52 | Extraction fails with KeyError exactly when some record lacks `element_amount`. Otherwise it yields the reference map of vectors. |
| Vectors.CleanVectorsSpec | artemis/api/calculator.py:44-52 | The map holds exactly the variables. Each vector has one entry per record, entry `j` being record `j`'s `element_amount`. |
| BoundVars.AllBoundsMembership | artemis/api/calculator.py:64-79 | A name is a bound variable of the aggregates exactly when it is the first component of a limit of one of them. |
| BoundVars.DedupSpec | artemis/api/calculator.py:70-71 | The "append if not yet in the list" rule keeps each bound variable exactly once, adds nothing, and orders the list by first occurrence. |
| BoundVars.FirstPartFirst | artemis/api/calculator.py:64-79 | Every variable seen in the first loop comes before every variable seen only in the second. |
| BoundVars.AddLimitBounds | artemis/api/calculator.py:66-71 | Walking one aggregate's arguments while skipping argument 0 appends its limits' bound variables, first-seen deduplicated. |
| BoundVars.CollectBoundVars | artemis/api/calculator.py:62-79 | `sum_vars` is distinct and holds exactly the bound variables of all sums and products. Sum variables come first. |
| BoundVars.ReusedBoundNameRecordedOnce | artemis/api/calculator.py:62-79 | The list has no per-aggregate scope: two sums over `i` record `i` once. |
| Subscripts.SubscriptOfMatches | artemis/api/calculator.py:92-97 | A symbol is rewritten for a variable exactly when its name starts with that variable's name plus `_`. |
| Subscripts.BracedSubscriptBetweenBraces | artemis/api/calculator.py:92-96 | A braced name also matches the underscore test, but the braced reading is the one used. The braced subscript is the text between the first `{` and the first `}`. With no `}`, the last character is dropped instead. With `}` before `{`, the subscript is empty. |
| Subscripts.BracedRoundTrip | artemis/api/calculator.py:92-93 | For a variable name with no braces, reading back `name_{sub}...` gives `sub`. |
| Subscripts.UnderscoreSubscriptOnlyForShortNames | artemis/api/calculator.py:95-96 | `atom_str[2:]` gives the text after `name_` exactly when the name is one character long, or when both name and text are empty. |
| Subscripts.AtomRewritesMembership | artemis/api/calculator.py:90-97 | For one symbol, the substitutions are exactly the `name_vec[sub]` references of the variables whose `name_` prefix the symbol carries. There are as many substitutions as such variables. |
| Subscripts.RewritesMembership | artemis/api/calculator.py:88-97 | The nested loop substitutes `v_vec[sub]` for a symbol exactly when the symbol occurs in the formula and `sub` is its subscript for variable `v`. |
| Subscripts.RewriteAtom | artemis/api/calculator.py:90-97 | For one symbol, the inner loop fails with `BadSubscript` exactly when one of its `name_vec[sub]` references has a subscript sympify rejects. Otherwise it applies that symbol's substitutions in variable order. |
| Subscripts.RewriteSubscripts | artemis/api/calculator.py:88-97 | The loop's result is the formula after applying those substitutions in loop order, or `BadSubscript` when building one of the indexed references raises. |
| Subscripts.RewrittenFails | artemis/api/calculator.py:88-97 | The loop fails exactly when some symbol carries, for some variable, a subscript text that sympify rejects. |
| Subscripts.EmptySubscriptRejected | artemis/api/calculator.py:92-97 | With a variable `x`, the symbols `x_` and `x_{}` both have the empty subscript. `sympify("")` raises, so the loop fails. |
| Subscripts.NoSubscriptedSymbolNoChange | artemis/api/calculator.py:88-97 | A formula with no symbol of the form `name_...` for a known variable comes out unchanged. |
| PerIndex.RowStatePrefixFailure | artemis/api/calculator.py:106-118 | An exception on one variable ends the inner loop with that exception. |
| PerIndex.RowStateSucceeds | artemis/api/calculator.py:106-118 | Index `i` passes the inner loop exactly when every variable has one record or more than `i` records. |
| PerIndex.RowStateInputs | artemis/api/calculator.py:111-115 | `result` holds every variable. A variable's record is its only record when it has one (broadcast), and its `i`-th record otherwise. |
| PerIndex.RowStateSubst | artemis/api/calculator.py:111-118 | `subs` binds each variable to the amount of that record and `name_vec` to its whole vector, provided no variable is named like another's `_vec` key. |
| PerIndex.VecKeyOverwritten | artemis/api/calculator.py:116-118 | A variable named `x_vec` listed after `x` overwrites the vector of `x` in `subs` with its own scalar. |
| PerIndex.BuildRow | artemis/api/calculator.py:103-118 | The inner loop computes the reference state of `result` and `subs`, or the first exception. |
| PerIndex.SolutionsPrefixFailure | artemis/api/calculator.py:101-126 | A failure at one index is the failure of the whole outer loop. |
| PerIndex.SolutionsSucceed | artemis/api/calculator.py:99-126 | The loop succeeds exactly when every index below `int(max_length)` yields an entry. |
| PerIndex.SolutionsRows | artemis/api/calculator.py:99-126 | A successful list has `max(n, 0)` entries, and entry `i` is the one computed for index `i`. |
| PerIndex.EntryShape | artemis/api/calculator.py:120-125 | An entry holds every variable plus the solution variable. The solution variable gets a fresh record whose `element_amount` is the first root's text; every other variable keeps the record it contributed. |
| PerIndex.NoRootFailsRequest | artemis/api/calculator.py:123-125 | An index with no root fails the whole request. Nothing records a partial list. |
| PerIndex.SolveAt | artemis/api/calculator.py:103-126 | One pass of the outer loop body computes the reference entry for its index. |
| PerIndex.SolveEachIndex | artemis/api/calculator.py:99-126 | The outer loop computes the reference solution list, or the first failure. |
| Calculator.Enumerate | artemis/api/calculator.py:88 | Iterating a set visits every element exactly once. |
| Calculator.AnswerShape | artemis/api/calculator.py:99-131 | A successful response has one entry per index, each holding every variable plus the solution variable. |
| Calculator.AnswerOrderIrrelevantWithoutSubscripts | artemis/api/calculator.py:81-97 | Without subscripted symbols, the set iteration order cannot change the response. |
| Calculator.RejectedSubscriptFailsRequest | artemis/api/calculator.py:88-97 | A symbol with a subscript sympify rejects fails the whole request with `BadSubscript`, in every visiting order. |
| Calculator.Evaluate | artemis/api/calculator.py:58-126 | `sum_vars` holds exactly the bound variables of the formula's sums and products, once each. The response is the reference answer for some visiting order of the formula's symbols. That answer includes the `BadSubscript` failure of the rewriting loop. |
| Calculator.ParseEach | artemis/api/calculator.py:172 | `map(parse_expr, sides)` succeeds exactly when every side parses, and gives the sides' parses in order. |
| Calculator.LatexCalculator | artemis/api/calculator.py:22-132 | Failure cases: KeyError when a record lacks `element_amount`, checked before parsing; a parse failure for the cleaned formula. Otherwise the reference answer for some symbol order, which fails with `BadSubscript` when a subscript cannot be sympified. On success: `max(n, 0)` entries, each holding every variable plus the solution variable. |
| Calculator.SimpleCalculator | artemis/api/calculator.py:137-250 | The same as `LatexCalculator`, with the formula cleaned with `^` to `**`, split at `=`, each side parsed, and the sides made into an equation. |

## Left out

- Request decoding is not modelled: `json.loads` of `variableVector`, the
  query-parameter lookups and `int(maxVectorLength)`. The handlers receive
  the decoded values, and their failures are not modelled. Dict keys are
  assumed distinct (`DistinctNames`), as a decoded JSON object's keys are.
- The `print` calls and the `JsonResponse` wrapping are left out.
  Django, the REST framework views, `models.py`, `urls.py` and `admin.py`
  are not part of this model.
- sympy and latex2sympy are abstract. Parsing, `Eq` with an unusual number
  of sides, `evalf`, `solve`, the `str` rendering of roots and floating
  point are whatever the `Sympy` parameter returns. An exception raised
  inside `subs`, `evalf` or `solve` is not modelled; only an empty root
  list is. Building `IndexedBase(name)[subscript]` is modelled as failing
  exactly when the `Sympy.sympifies` parameter rejects the subscript text.
- Calculator.Enumerate: states that every element is visited once, but
  not which order Python's set iteration yields.
- The `sum_var_symbols` dict (calculator.py:83-85) is built and never read.
  It is left out. `sum_vars` is modelled, and is also unused afterwards.
- `var_sympy_objects` is folded into the `Indexed(VecName(name), sub)`
  reference it produces, when `Sympy.sympifies` accepts `sub`.
- Vectors.ExtractVectors, Calculator.LatexCalculator and
  Calculator.SimpleCalculator: `Array(vector_array)` is modelled as the
  plain sequence of amounts and taken to succeed, because amounts are
  numbers. In the source, `Array` sympifies every amount and raises on
  text sympify rejects, such as `""`. The model then reports the later
  KeyError, or succeeds, where the source raises.
- Python's set of symbols is modelled by symbol names. Two sympy symbols
  with the same name but different assumptions are taken as one.
- Key order in the JSON output is not modelled. A response entry is a map.
  `JsonResponse` writes the variables in request order. A solution
  variable that is not one of the variables comes last. One that is a
  variable keeps that variable's place, with its record replaced.
- Error values carry no payload: the model keeps which kind of exception
  ends the request, not its message.
