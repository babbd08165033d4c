/** Values shared by every part of the calculator model: the JSON data a
    request carries, the records bound to each variable, and the ways a
    request can fail. */
module Common {

  datatype Option<T> = None | Some(value: T)

  /** The exceptions the handlers let escape. Each aborts the whole request. */
  datatype Error =
    | KeyMissing       // a dict lookup raised KeyError ('element_amount' absent)
    | ParseFailed      // latex2sympy, parse_expr or Eq raised
    | IndexOutOfRange  // vector[i] raised IndexError
    | NoSolution       // var_result[0] raised IndexError: the solver found no root
    | BadSubscript     // base[subscript] raised: sympify rejected the subscript text

  datatype Result<T> = Success(value: T) | Failure(error: Error)

  /** A JSON number; its arithmetic is the solver's business, never the handlers'. */
  type Number(==)

  /** A value decoded by json.loads. */
  datatype Json =
    | JNull
    | JBool(b: bool)
    | JNumber(n: Number)
    | JString(s: string)
    | JArray(items: seq<Json>)
    | JObject(fields: map<string, Json>)

  /** One observation of a variable: a JSON object such as
      {"element_amount": 3.2, "label": "..."}. */
  type Record = map<string, Json>

  /** The key every record must carry. */
  const Amount: string := "element_amount"

  /** The name of the IndexedBase that stands for a variable's whole vector,
      and the substitution key under which that vector is passed. */
  function VecName(name: string): string
  {
    name + "_vec"
  }

  predicate Distinct<T(==)>(xs: seq<T>)
  {
    forall i, j :: 0 <= i < j < |xs| ==> xs[i] != xs[j]
  }
}
