/** The typeset-math string that `renderLatexToCanvas` builds for one
    expression and its answer. */
module Overlay {
  import opened Wrappers

  /** Opening inline-math delimiter followed by the size command: `\(\LARGE `. */
  const Prefix: string := "\\(\\LARGE "
  const Separator: string := " = "
  /** Closing inline-math delimiter: `\)`. */
  const Suffix: string := "\\)"

  /** The overlay text `\(\LARGE <expression> = <answer>\)`. */
  function LatexOf(expression: string, answer: string): (s: string)
    ensures |s| == |Prefix| + |expression| + |Separator| + |answer| + |Suffix|
    ensures s[..|Prefix|] == Prefix
    ensures s[|Prefix|..|Prefix| + |expression|] == expression
    ensures s[|Prefix| + |expression|..|Prefix| + |expression| + |Separator|] == Separator
    ensures s[|s| - |Suffix| - |answer|..|s| - |Suffix|] == answer
    ensures s[|s| - |Suffix|..] == Suffix
  {
    Prefix + expression + Separator + answer + Suffix
  }

  /** The text between the inline-math delimiters of an overlay string, or
      None when `s` is not delimited that way. */
  function Body(s: string): (r: Option<string>)
    ensures r.Some? <==> |s| >= |Prefix| + |Suffix| && s[..|Prefix|] == Prefix && s[|s| - |Suffix|..] == Suffix
    ensures r.Some? ==> Prefix + r.value + Suffix == s
  {
    if |s| >= |Prefix| + |Suffix| && s[..|Prefix|] == Prefix && s[|s| - |Suffix|..] == Suffix
    then
      var body := s[|Prefix|..|s| - |Suffix|];
      assert s == s[..|Prefix|] + body + s[|s| - |Suffix|..];
      Some(body)
    else None
  }

  /** Taking the delimiters off an overlay string gives back
      `<expression> = <answer>`. */
  lemma BodyOfLatex(expression: string, answer: string)
    ensures Body(LatexOf(expression, answer)) == Some(expression + Separator + answer)
  {
    var s := LatexOf(expression, answer);
    assert s[|Prefix|..|s| - |Suffix|] == expression + Separator + answer;
  }

  /** For one expression, different answers give different overlay strings. */
  lemma LatexDeterminesAnswer(expression: string, a1: string, a2: string)
    requires LatexOf(expression, a1) == LatexOf(expression, a2)
    ensures a1 == a2
  {
    var s := LatexOf(expression, a1);
    assert a1 == s[|s| - |Suffix| - |a1|..|s| - |Suffix|];
  }

  /** The expression `2+2` with answer `4` is shown as `2+2 = 4`. */
  lemma TwoPlusTwo()
    ensures LatexOf("2+2", "4") == "\\(\\LARGE 2+2 = 4\\)"
    ensures Body(LatexOf("2+2", "4")) == Some("2+2 = 4")
  {
    BodyOfLatex("2+2", "4");
    assert "2+2" + Separator + "4" == "2+2 = 4";
  }
}
