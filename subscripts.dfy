/** Subscripted symbols: reading a subscript off a symbol's name, and the
    loop that replaces every symbol of a known variable by an indexed
    reference into that variable's vector
    (artemis/api/calculator.py:81-97, repeated at :199-215). */
module Subscripts {
  import opened Common
  import opened Strings
  import opened Expressions

  /** atom_str[atom_str.find("{") + 1 : atom_str.find("}")] */
  function BracedSubscript(atom: string): string
  {
    Slice(atom, FindChar(atom, '{') + 1, FindChar(atom, '}'))
  }

  /** atom_str[2:] */
  function UnderscoreSubscript(atom: string): string
  {
    Slice(atom, 2, |atom|)
  }

  /** The subscript the loop reads off symbol name atom for variable
      varName, or None when the name is not one of that variable's. The
      braced form is checked first. */
  function SubscriptOf(atom: string, varName: string): Option<string>
  {
    if StartsWith(atom, varName + "_{") then Some(BracedSubscript(atom))
    else if StartsWith(atom, varName + "_") then Some(UnderscoreSubscript(atom))
    else None
  }

  /** A symbol belongs to a variable exactly when its name starts with the
      variable's name and an underscore; the braced form is a special case. */
  lemma SubscriptOfMatches(atom: string, varName: string)
    ensures SubscriptOf(atom, varName).Some? <==> StartsWith(atom, varName + "_")
  {
    if StartsWith(atom, varName + "_{") {
      assert (varName + "_{")[..|varName| + 1] == varName + "_";
      assert atom[..|varName| + 1] == atom[..|varName| + 2][..|varName| + 1];
    }
  }

  /** A braced name also starts with the plain underscore prefix, and the
      braced reading wins. Its subscript is the text strictly between the
      first "{" and the first "}". With no "}" at all, the slice end -1
      drops the last character instead; with "}" before the first "{" the
      subscript is empty. */
  lemma BracedSubscriptBetweenBraces(atom: string, varName: string)
    requires StartsWith(atom, varName + "_{")
    ensures StartsWith(atom, varName + "_") && SubscriptOf(atom, varName) == Some(BracedSubscript(atom))
    ensures 0 <= FindChar(atom, '{') <= |varName| + 1
    ensures FindChar(atom, '{') < FindChar(atom, '}') ==>
              SubscriptOf(atom, varName) == Some(atom[FindChar(atom, '{') + 1..FindChar(atom, '}')])
    ensures FindChar(atom, '}') == -1 ==>
              SubscriptOf(atom, varName)
              == Some(if FindChar(atom, '{') + 1 < |atom| then atom[FindChar(atom, '{') + 1..|atom| - 1] else [])
    ensures 0 <= FindChar(atom, '}') < FindChar(atom, '{') ==> SubscriptOf(atom, varName) == Some([])
  {
    BraceAfterName(atom, varName);
    SubscriptOfMatches(atom, varName);
    assert SubscriptOf(atom, varName) == Some(BracedSubscript(atom));
    BracedSubscriptCases(atom, FindChar(atom, '{'), FindChar(atom, '}'));
  }

  lemma BraceAfterName(atom: string, varName: string)
    requires StartsWith(atom, varName + "_{")
    ensures 0 <= FindChar(atom, '{') <= |varName| + 1
  {
    var n := |varName|;
    assert atom[n + 1] == '{' by {
      assert atom[..n + 2][n + 1] == (varName + "_{")[n + 1];
    }
    FindCharAtMost(atom, '{', n + 1);
  }

  lemma BracedSubscriptCases(atom: string, f: int, g: int)
    requires f == FindChar(atom, '{') && g == FindChar(atom, '}') && f >= 0
    ensures f < g ==> BracedSubscript(atom) == atom[f + 1..g]
    ensures g == -1 ==> BracedSubscript(atom) == if f + 1 < |atom| then atom[f + 1..|atom| - 1] else []
    ensures 0 <= g < f ==> BracedSubscript(atom) == []
  {
    if g == -1 {
      SliceToLast(atom, f + 1);
    } else if f < g {
      SliceWithin(atom, f + 1, g);
    } else {
      SliceCrossed(atom, f + 1, g);
    }
  }

  /** Reading back a well-formed braced name gives its subscript, provided
      the variable's own name holds no brace. */
  lemma BracedRoundTrip(varName: string, sub: string, rest: string)
    requires '{' !in varName && '}' !in varName && '}' !in sub
    ensures SubscriptOf(varName + "_{" + sub + "}" + rest, varName) == Some(sub)
  {
    var atom := varName + "_{" + sub + "}" + rest;
    var f := |varName| + 1;
    var g := |varName| + 2 + |sub|;
    assert atom[..|varName| + 2] == varName + "_{";
    assert atom[f] == '{' && '{' !in atom[..f] by {
      assert atom[..f] == varName + "_";
    }
    assert atom[g] == '}' && '}' !in atom[..g] by {
      assert atom[..g] == varName + "_{" + sub;
    }
    FindCharAt(atom, '{', f);
    FindCharAt(atom, '}', g);
    assert atom[f + 1..g] == sub;
  }

  /** The underscore form drops the first two characters of the name, which
      gives the text after varName + "_" exactly when varName is one
      character long (or when both are empty). */
  lemma UnderscoreSubscriptOnlyForShortNames(varName: string, t: string)
    requires t == [] || t[0] != '{'
    ensures SubscriptOf(varName + "_" + t, varName) == Some(t)
        <==> |varName| == 1 || (varName == [] && t == [])
  {
    var atom := varName + "_" + t;
    assert atom[..|varName| + 1] == varName + "_";
    assert !StartsWith(atom, varName + "_{") by {
      if t != [] {
        assert atom[|varName| + 1] == t[0];
        assert (varName + "_{")[|varName| + 1] == '{';
      }
    }
    assert SubscriptOf(atom, varName) == Some(UnderscoreSubscript(atom));
    assert UnderscoreSubscript(atom) == if |atom| > 2 then atom[2..] else [];
    if |varName| == 1 {
      assert atom[2..] == t;
    } else if |varName| >= 2 {
      assert |UnderscoreSubscript(atom)| == |varName| - 1 + |t|;
    } else if t != [] {
      assert |UnderscoreSubscript(atom)| == |t| - 1;
    }
  }

  // ---------------------------------------------------------------------
  // The rewriting loop

  /** One substitution made by the loop: the symbol name and its replacement. */
  type Rewrite = (string, Expr)

  /** The rewrites the inner loop makes for one atom, in variable order. */
  function AtomRewrites(atom: string, names: seq<string>): seq<Rewrite>
  {
    if names == [] then []
    else
      var v := names[|names| - 1];
      AtomRewrites(atom, names[..|names| - 1])
      + match SubscriptOf(atom, v)
        case None => []
        case Some(sub) => [(atom, Indexed(VecName(v), sub))]
  }

  /** Every rewrite of the nested loop, atom by atom. */
  function Rewrites(atoms: seq<string>, names: seq<string>): seq<Rewrite>
  {
    if atoms == [] then []
    else Rewrites(atoms[..|atoms| - 1], names) + AtomRewrites(atoms[|atoms| - 1], names)
  }

  /** The expression after applying the rewrites rs one after the other
      with subs (sympy's expr.subs(name, new)). */
  function Replay(subs: (Expr, string, Expr) -> Expr, e: Expr, rs: seq<Rewrite>): Expr
  {
    if rs == [] then e
    else
      var last := rs[|rs| - 1];
      subs(Replay(subs, e, rs[..|rs| - 1]), last.0, last.1)
  }

  lemma {:induction false} AtomRewritesMembership(atom: string, names: seq<string>, rw: Rewrite)
    ensures rw in AtomRewrites(atom, names)
        <==> rw.0 == atom && exists k :: 0 <= k < |names| && SubscriptOf(atom, names[k]).Some?
                               && rw.1 == Indexed(VecName(names[k]), SubscriptOf(atom, names[k]).value)
    ensures |AtomRewrites(atom, names)| == |Matching(atom, names)|
  {
    if names != [] {
      var init := names[..|names| - 1];
      AtomRewritesMembership(atom, init, rw);
      forall k | 0 <= k < |init| ensures init[k] == names[k] { }
    }
    AtomRewritesCount(atom, names);
  }

  /** The matching variables' indices among names. */
  function Matching(atom: string, names: seq<string>): set<nat>
  {
    set k: nat | k < |names| && SubscriptOf(atom, names[k]).Some?
  }

  lemma {:induction false} AtomRewritesCount(atom: string, names: seq<string>)
    ensures |AtomRewrites(atom, names)| == |Matching(atom, names)|
  {
    if names != [] {
      var init := names[..|names| - 1];
      AtomRewritesCount(atom, init);
      var before, after := Matching(atom, init), Matching(atom, names);
      if SubscriptOf(atom, names[|init|]).Some? {
        assert after == before + {|init|};
        assert |init| !in before;
      } else {
        assert after == before;
      }
    }
  }

  /** The loop replaces symbol atom by v_vec[sub] exactly when atom is one
      of the listed symbols and sub is what SubscriptOf reads off it for
      one of the variables. */
  lemma {:induction false} RewritesMembership(atoms: seq<string>, names: seq<string>, rw: Rewrite)
    ensures rw in Rewrites(atoms, names)
        <==> rw.0 in atoms && exists k :: 0 <= k < |names| && SubscriptOf(rw.0, names[k]).Some?
                                 && rw.1 == Indexed(VecName(names[k]), SubscriptOf(rw.0, names[k]).value)
  {
    if atoms != [] {
      var init := atoms[..|atoms| - 1];
      RewritesMembership(init, names, rw);
      AtomRewritesMembership(atoms[|atoms| - 1], names, rw);
      assert atoms == init + [atoms[|atoms| - 1]];
    }
  }

  /** Every indexed reference among the rewrites rs has a subscript text
      that accepts (sympify's parse of the text inside IndexedBase's
      __getitem__) takes. */
  predicate Indexable(accepts: string -> bool, rs: seq<Rewrite>)
  {
    forall rw :: rw in rs ==> rw.1.Indexed? && accepts(rw.1.index)
  }

  /** The formula after the atom loop, or BadSubscript when building one of
      the indexed references raises. The loop's earlier substitutions are
      lost with the exception, so which one fails does not matter. */
  function Rewritten(subs: (Expr, string, Expr) -> Expr, accepts: string -> bool, e: Expr,
                     atoms: seq<string>, names: seq<string>): Result<Expr>
  {
    var rs := Rewrites(atoms, names);
    if Indexable(accepts, rs) then Success(Replay(subs, e, rs)) else Failure(BadSubscript)
  }

  /** The loop fails exactly when some listed symbol carries, for some
      variable, a subscript text that sympify rejects. */
  lemma RewrittenFails(subs: (Expr, string, Expr) -> Expr, accepts: string -> bool, e: Expr,
                       atoms: seq<string>, names: seq<string>)
    ensures Rewritten(subs, accepts, e, atoms, names).Failure?
        <==> exists a, k :: a in atoms && 0 <= k < |names| && SubscriptOf(a, names[k]).Some?
                              && !accepts(SubscriptOf(a, names[k]).value)
    ensures Rewritten(subs, accepts, e, atoms, names).Failure? ==>
              Rewritten(subs, accepts, e, atoms, names).error == BadSubscript
  {
    var rs := Rewrites(atoms, names);
    if !Indexable(accepts, rs) {
      var rw :| rw in rs && !(rw.1.Indexed? && accepts(rw.1.index));
      RewritesMembership(atoms, names, rw);
    }
    forall a, k | a in atoms && 0 <= k < |names| && SubscriptOf(a, names[k]).Some?
      ensures accepts(SubscriptOf(a, names[k]).value) || !Indexable(accepts, rs)
    {
      RewritesMembership(atoms, names, (a, Indexed(VecName(names[k]), SubscriptOf(a, names[k]).value)));
    }
  }

  /** The plain-text formula "y=x_" with a variable x: the symbol x_ has the
      empty subscript, sympify("") raises, and so does the request. The
      braced "x_{}" fails the same way. */
  lemma EmptySubscriptRejected(subs: (Expr, string, Expr) -> Expr, accepts: string -> bool, e: Expr)
    requires !accepts("")
    ensures Rewritten(subs, accepts, e, ["x_"], ["x"]) == Failure(BadSubscript)
    ensures Rewritten(subs, accepts, e, ["x_{}"], ["x"]) == Failure(BadSubscript)
  {
    assert SubscriptOf("x_", "x") == Some("") by {
      assert !StartsWith("x_", "x_{");
      assert StartsWith("x_", "x_");
    }
    assert SubscriptOf("x_{}", "x") == Some("") by {
      assert StartsWith("x_{}", "x_{");
      assert FindChar("x_{}", '{') == 2 by { FindCharAt("x_{}", '{', 2); }
      assert FindChar("x_{}", '}') == 3 by { FindCharAt("x_{}", '}', 3); }
    }
    RewrittenFails(subs, accepts, e, ["x_"], ["x"]);
    RewrittenFails(subs, accepts, e, ["x_{}"], ["x"]);
  }

  /** Substituting rs then ts is substituting rs + ts. */
  lemma {:induction false} ReplayAppend(subs: (Expr, string, Expr) -> Expr, e: Expr, rs: seq<Rewrite>, ts: seq<Rewrite>)
    ensures Replay(subs, e, rs + ts) == Replay(subs, Replay(subs, e, rs), ts)
    decreases |ts|
  {
    if ts == [] {
      assert rs + ts == rs;
    } else {
      var init := ts[..|ts| - 1];
      assert (rs + ts)[..|rs + ts| - 1] == rs + init;
      ReplayAppend(subs, e, rs, init);
    }
  }

  /** The inner loop for one symbol: substitute the indexed reference for
      every variable whose subscript the symbol carries, in request order,
      starting from formula cur. */
  method RewriteAtom(subs: (Expr, string, Expr) -> Expr, accepts: string -> bool, cur: Expr,
                     atom: string, names: seq<string>)
    returns (r: Result<Expr>)
    ensures r.Success? <==> Indexable(accepts, AtomRewrites(atom, names))
    ensures r.Success? ==> r.value == Replay(subs, cur, AtomRewrites(atom, names))
    ensures r.Failure? ==> r.error == BadSubscript
  {
    var c := cur;
    for j := 0 to |names|
      invariant c == Replay(subs, cur, AtomRewrites(atom, names[..j]))
      invariant Indexable(accepts, AtomRewrites(atom, names[..j]))
    {
      var varName := names[j];
      ghost var before := AtomRewrites(atom, names[..j]);
      assert names[..j + 1][..j] == names[..j];
      var subscript;
      if StartsWith(atom, varName + "_{") {
        subscript := BracedSubscript(atom);
      } else if StartsWith(atom, varName + "_") {
        subscript := UnderscoreSubscript(atom);
      } else {
        assert AtomRewrites(atom, names[..j + 1]) == before;
        continue;
      }
      ghost var rw := (atom, Indexed(VecName(varName), subscript));
      assert AtomRewrites(atom, names[..j + 1]) == before + [rw];
      if !accepts(subscript) {
        AtomRewritesMembership(atom, names, rw);
        return Failure(BadSubscript);
      }
      c := subs(c, atom, Indexed(VecName(varName), subscript));
      assert (before + [rw])[..|before|] == before;
    }
    assert names[..|names|] == names;
    r := Success(c);
  }

  /** A symbol whose own rewrites are not all indexable fails the whole loop. */
  lemma AtomRejectedFails(subs: (Expr, string, Expr) -> Expr, accepts: string -> bool, e: Expr,
                          atoms: seq<string>, names: seq<string>, k: nat)
    requires k < |atoms| && !Indexable(accepts, AtomRewrites(atoms[k], names))
    ensures Rewritten(subs, accepts, e, atoms, names) == Failure(BadSubscript)
  {
    var atom := atoms[k];
    var rw :| rw in AtomRewrites(atom, names) && !(rw.1.Indexed? && accepts(rw.1.index));
    AtomRewritesMembership(atom, names, rw);
    var j :| 0 <= j < |names| && SubscriptOf(atom, names[j]).Some?
             && rw.1 == Indexed(VecName(names[j]), SubscriptOf(atom, names[j]).value);
    assert atom in atoms && !accepts(SubscriptOf(atom, names[j]).value);
    RewrittenFails(subs, accepts, e, atoms, names);
  }

  /** The atom loop: for every symbol name, in the order the set yields
      them, run the inner loop over the variables. Building an indexed
      reference raises when sympify rejects the subscript text. */
  method RewriteSubscripts(subs: (Expr, string, Expr) -> Expr, accepts: string -> bool, e: Expr,
                           atoms: seq<string>, names: seq<string>)
    returns (r: Result<Expr>)
    ensures r == Rewritten(subs, accepts, e, atoms, names)
  {
    var cur := e;
    for k := 0 to |atoms|
      invariant cur == Replay(subs, e, Rewrites(atoms[..k], names))
      invariant Indexable(accepts, Rewrites(atoms[..k], names))
    {
      ghost var done := Rewrites(atoms[..k], names);
      var atom := atoms[k];
      var next := RewriteAtom(subs, accepts, cur, atom, names);
      if next.Failure? {
        AtomRejectedFails(subs, accepts, e, atoms, names, k);
        return Failure(BadSubscript);
      }
      assert atoms[..k + 1][..k] == atoms[..k];
      assert Rewrites(atoms[..k + 1], names) == done + AtomRewrites(atom, names);
      ReplayAppend(subs, e, done, AtomRewrites(atom, names));
      cur := next.value;
    }
    assert atoms[..|atoms|] == atoms;
    r := Success(cur);
  }

  /** A formula none of whose symbols carries a variable's name and an
      underscore comes out of the loop unchanged. */
  lemma NoSubscriptedSymbolNoChange(subs: (Expr, string, Expr) -> Expr, e: Expr, atoms: seq<string>, names: seq<string>)
    requires forall a, k :: a in atoms && 0 <= k < |names| ==> !StartsWith(a, names[k] + "_")
    ensures Rewrites(atoms, names) == []
    ensures Replay(subs, e, Rewrites(atoms, names)) == e
  {
    var rs := Rewrites(atoms, names);
    if rs != [] {
      RewritesMembership(atoms, names, rs[0]);
      var k :| 0 <= k < |names| && SubscriptOf(rs[0].0, names[k]).Some?;
      SubscriptOfMatches(rs[0].0, names[k]);
      assert false;
    }
  }
}
