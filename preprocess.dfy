/** The textual clean-up both handlers apply to the formula before it is
    parsed (artemis/api/calculator.py:35-36 and :150-151), and the split of a
    cleaned plain-text formula into the two sides of its equation (:172). */
module Preprocess {
  import opened Strings

  /** The formatting marker both handlers delete: a backslash and a space. */
  const EscapedSpace: string := "\\ "

  /** latex.replace("\\ ", ""). */
  function StripEscapedSpaces(s: string): string
  {
    Replace(s, EscapedSpace, "")
  }

  /** LatexCalculator's cleaning: strip the markers, then turn every "="
      into "==". */
  function LatexClean(latex: string): string
  {
    Replace(StripEscapedSpaces(latex), "=", "==")
  }

  /** SimpleCalculator's cleaning: strip the markers, then turn every "^"
      into Python's power operator "**". */
  function SimpleClean(formula: string): string
  {
    Replace(StripEscapedSpaces(formula), "^", "**")
  }

  /** latex_clean.split("="): the texts handed to parse_expr one by one. */
  function SimpleSides(formula: string): seq<string>
  {
    Split(SimpleClean(formula), '=')
  }

  /** Stripping deletes only backslashes and spaces: every other character
      survives, in order, and no character is added. */
  lemma StripKeepsOtherChars(s: string)
    ensures Without(StripEscapedSpaces(s), {'\\', ' '}) == Without(s, {'\\', ' '})
    ensures |StripEscapedSpaces(s)| <= |s|
    ensures forall c :: c != '\\' && c != ' ' ==> Count(StripEscapedSpaces(s), c) == Count(s, c)
  {
    assert Without(EscapedSpace, {'\\', ' '}) == [];
    ReplaceKeepsOthers(s, EscapedSpace, "", {'\\', ' '});
    ReplaceShrinks(s, EscapedSpace, "");
    forall c | c != '\\' && c != ' '
      ensures Count(StripEscapedSpaces(s), c) == Count(s, c)
    {
      CountWithout(StripEscapedSpaces(s), {'\\', ' '}, c);
      CountWithout(s, {'\\', ' '}, c);
    }
  }

  /** The strip is a single left-to-right pass: a backslash before a removed
      marker can meet the following space and form a new marker, which is
      left in place. */
  lemma StripIsSinglePass()
    ensures StripEscapedSpaces("\\\\  ") == EscapedSpace
  {
    var s := "\\\\  ";
    assert s[..2][1] != EscapedSpace[1];
    assert s[1..][..2] == EscapedSpace;
    assert s[1..][2..] == " ";
  }

  /** LatexCalculator's cleaning doubles every "=" of the stripped text and
      changes nothing else: it is exactly the per-character expansion of
      "=" into "==". */
  lemma LatexCleanDoublesEquals(latex: string)
    ensures LatexClean(latex) == ExpandChar(StripEscapedSpaces(latex), '=', "==")
    ensures Count(LatexClean(latex), '=') == 2 * Count(StripEscapedSpaces(latex), '=')
    ensures Count(LatexClean(latex), '=') == 2 * Count(latex, '=')
    ensures Without(LatexClean(latex), {'='}) == Without(StripEscapedSpaces(latex), {'='})
  {
    var stripped := StripEscapedSpaces(latex);
    ReplaceSingleChar(stripped, '=', "==");
    ExpandCount(stripped, '=', "==", '=');
    assert Without("=", {'='}) == Without("==", {'='});
    ReplaceKeepsOthers(stripped, "=", "==", {'='});
    StripKeepsOtherChars(latex);
  }

  /** SimpleCalculator's cleaning turns each "^" into "**" and keeps every
      other character in order, so no "^" is left. */
  lemma SimpleCleanExpandsCarets(formula: string)
    ensures SimpleClean(formula) == ExpandChar(StripEscapedSpaces(formula), '^', "**")
    ensures Count(SimpleClean(formula), '^') == 0
    ensures Count(SimpleClean(formula), '*')
         == Count(StripEscapedSpaces(formula), '*') + 2 * Count(StripEscapedSpaces(formula), '^')
    ensures Without(SimpleClean(formula), {'^', '*'}) == Without(StripEscapedSpaces(formula), {'^', '*'})
    ensures Count(SimpleClean(formula), '=') == Count(formula, '=')
  {
    var stripped := StripEscapedSpaces(formula);
    ReplaceSingleChar(stripped, '^', "**");
    ExpandCount(stripped, '^', "**", '^');
    ExpandCount(stripped, '^', "**", '*');
    ExpandCount(stripped, '^', "**", '=');
    assert Without("^", {'^', '*'}) == Without("**", {'^', '*'});
    ReplaceKeepsOthers(stripped, "^", "**", {'^', '*'});
    StripKeepsOtherChars(formula);
  }

  /** The sides are the cleaned formula cut at every "=": one more side than
      the formula has "=" characters, none of them holding an "=", and joined
      back with "=" they give the cleaned formula again. */
  lemma SimpleSidesSplitCleanFormula(formula: string)
    ensures |SimpleSides(formula)| == Count(formula, '=') + 1
    ensures forall k :: 0 <= k < |SimpleSides(formula)| ==> '=' !in SimpleSides(formula)[k]
    ensures Join(SimpleSides(formula), '=') == SimpleClean(formula)
  {
    SimpleCleanExpandsCarets(formula);
    JoinSplit(SimpleClean(formula), '=');
  }
}
