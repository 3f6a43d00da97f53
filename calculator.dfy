/**
 * The calculator tool (`calculate` in api.py): a character whitelist, the
 * rewrite of `^` into Python's power operator `**`, and a hand-off to an
 * evaluator.  Python's `eval` followed by `float(...)`, with its exceptions
 * turned into error messages, is not modelled: it is the parameter `eval`.
 */
module Calculator {
  import opened Text

  /**
   * A Python float.  The model never computes with one: it is produced by the
   * evaluator, stored, and handed to renderings that are parameters too.
   */
  type Float = real

  /** The dictionary `calculate` returns: `status` is "success" or "error". */
  datatype CalcResult = Success(value: Float) | Error(error: string)

  const InvalidExpression := "Invalid math expression"

  /** The character class `[0-9\.\+\-\*\/\(\)\s\^]`. */
  predicate InClass(c: char) {
    ('0' <= c <= '9') || c == '.' || c == '+' || c == '-' || c == '*' || c == '/'
    || c == '(' || c == ')' || IsSpace(c) || c == '^'
  }

  /** `re.fullmatch(r"[...]+", s)`: one character of the class, then the repetition. */
  predicate FullMatch(s: string)
    decreases |s|
  {
    |s| >= 1 && InClass(s[0]) && (|s| == 1 || FullMatch(s[1..]))
  }

  /** The whitelist accepts exactly the non-empty strings made of class characters. */
  lemma {:induction false} FullMatchIff(s: string)
    ensures FullMatch(s) <==> s != [] && forall i :: 0 <= i < |s| ==> InClass(s[i])
    decreases |s|
  {
    if |s| > 1 {
      FullMatchIff(s[1..]);
      assert forall i :: 1 <= i < |s| ==> s[i] == s[1..][i - 1];
    }
  }

  /** `expression.replace("^", "**")`. */
  function Normalize(e: string): (r: string)
    ensures e == [] ==> r == []
  {
    ReplaceChar(e, '^', "**")
  }

  /** `calculate(expression)`, with the evaluator as a parameter. */
  function Calculate(expression: string, eval: string -> CalcResult): (r: CalcResult)
    ensures !FullMatch(expression) ==> r == Error(InvalidExpression)
  {
    if !FullMatch(expression) then Error(InvalidExpression)
    else eval(Normalize(expression))
  }

  /**
   * An empty expression, or one with a character outside the class, is
   * answered "Invalid math expression" whatever the evaluator would do.
   */
  lemma RejectedWithoutEvaluation(e: string, eval: string -> CalcResult, eval': string -> CalcResult)
    requires e == [] || exists i :: 0 <= i < |e| && !InClass(e[i])
    ensures Calculate(e, eval) == Calculate(e, eval') == Error(InvalidExpression)
  {
    FullMatchIff(e);
  }

  /**
   * An accepted expression reaches the evaluator exactly once rewritten; the
   * text it sees is non-empty, free of `^`, and made of class characters.
   */
  lemma AcceptedIsEvaluatedNormalized(e: string, eval: string -> CalcResult)
    requires e != [] && forall i :: 0 <= i < |e| ==> InClass(e[i])
    ensures Calculate(e, eval) == eval(Normalize(e))
    ensures Normalize(e) != [] && '^' !in Normalize(e)
    ensures forall i :: 0 <= i < |Normalize(e)| ==> InClass(Normalize(e)[i])
  {
    FullMatchIff(e);
    NormalizeLength(e);
    NormalizeRemovesCaret(e);
    NormalizeKeepsClass(e);
  }

  lemma {:induction false} NormalizeConcat(a: string, b: string)
    ensures Normalize(a + b) == Normalize(a) + Normalize(b)
    decreases |a|
  {
    if a != [] {
      var head := if a[0] == '^' then "**" else [a[0]];
      assert (a + b)[0] == a[0];
      assert (a + b)[1..] == a[1..] + b;
      assert Normalize(a + b) == head + Normalize(a[1..] + b);
      assert Normalize(a) == head + Normalize(a[1..]);
      NormalizeConcat(a[1..], b);
    } else {
      assert a + b == b;
    }
  }

  /** Each `^` adds one character. */
  lemma {:induction false} NormalizeLength(e: string)
    ensures |Normalize(e)| == |e| + CountChar(e, '^')
    decreases |e|
  {
    if e != [] {
      NormalizeLength(e[1..]);
    }
  }

  /** No `^` is left. */
  lemma {:induction false} NormalizeRemovesCaret(e: string)
    ensures '^' !in Normalize(e)
    decreases |e|
  {
    if e != [] {
      NormalizeRemovesCaret(e[1..]);
    }
  }

  /** The rewrite only ever puts class characters in place of class characters. */
  lemma {:induction false} NormalizeKeepsClass(e: string)
    requires forall i :: 0 <= i < |e| ==> InClass(e[i])
    ensures forall i :: 0 <= i < |Normalize(e)| ==> InClass(Normalize(e)[i])
    decreases |e|
  {
    if e != [] {
      NormalizeKeepsClass(e[1..]);
      var head := if e[0] == '^' then "**" else [e[0]];
      assert Normalize(e) == head + Normalize(e[1..]);
    }
  }

  /** An expression without `^` goes to the evaluator unchanged. */
  lemma {:induction false} NormalizeKeepsCaretFree(e: string)
    requires '^' !in e
    ensures Normalize(e) == e
    decreases |e|
  {
    if e != [] {
      NormalizeKeepsCaretFree(e[1..]);
      assert e == [e[0]] + e[1..];
    }
  }

  /**
   * Character `i` of the expression lands at position `i` plus the number of
   * `^` before it: a `^` there has become `**`, anything else is unchanged.
   */
  lemma NormalizeAt(e: string, i: nat)
    requires i < |e|
    ensures var p := i + CountChar(e[..i], '^');
      if e[i] == '^' then p + 2 <= |Normalize(e)| && Normalize(e)[p..p + 2] == "**"
      else p < |Normalize(e)| && Normalize(e)[p] == e[i]
  {
    var p := i + CountChar(e[..i], '^');
    assert e == e[..i] + e[i..];
    NormalizeConcat(e[..i], e[i..]);
    NormalizeLength(e[..i]);
    assert e[i..][1..] == e[i + 1..];
    var head := if e[i] == '^' then "**" else [e[i]];
    assert Normalize(e[i..]) == head + Normalize(e[i + 1..]);
    assert Normalize(e) == Normalize(e[..i]) + head + Normalize(e[i + 1..]);
    assert Normalize(e)[p..p + |head|] == head;
  }

  /** The rewrite is Python's `str.replace`: split on `^`, join with `**`. */
  lemma NormalizeIsReplace(e: string)
    ensures Normalize(e) == Join("**", Split(e, "^"))
  {
    ReplaceCharIsSplitJoin(e, '^', "**");
  }
}
