/**
 * ContainerRise rules for nations (cards/risegenerator.py): a rule sends
 * every nationstates.net page of a nation to a container named after it.
 * The lines read from standard input are a parameter, and the lines printed
 * are the result.
 */
module RiseGenerator {
  import opened Strings
  import opened Core

  /** The pattern text before the cleaned name; the backslashes are literal. */
  const RulePrefix := "@^.*\\.nationstates\\.net/(.*/)?nation="
  /** The pattern text after the cleaned name. */
  const PatternEnd := "(/.*)?$"
  /** Between the pattern and the container name. */
  const Separator := " , "

  /** The URL pattern of a rule: any page of the nation, by cleaned name. */
  function RulePattern(nation: string): string {
    RulePrefix + CleanFormat(nation) + PatternEnd
  }

  /** `rule`: the pattern, the separator, and the nation as given. */
  function Rule(nation: string): string {
    RulePattern(nation) + Separator + nation
  }

  /** The cleaned name sits right after the fixed prefix, and the rule ends
      with the separator and the nation as given. */
  lemma RuleShape(nation: string)
    ensures StartsWith(Rule(nation), RulePrefix)
    ensures var clean := CleanFormat(nation);
      Rule(nation)[|RulePrefix|..|RulePrefix| + |clean|] == clean
    ensures |Rule(nation)| >= |Separator + nation| &&
      Rule(nation)[|Rule(nation)| - |Separator + nation|..] == Separator + nation
  {
    var rule := Rule(nation);
    var clean := CleanFormat(nation);
    assert rule == RulePrefix + (clean + PatternEnd + Separator + nation);
    assert rule[..|RulePrefix|] == RulePrefix;
    assert rule[|RulePrefix|..|RulePrefix| + |clean|] == clean;
    assert rule == RulePattern(nation) + (Separator + nation);
  }

  /** Two nations get the same pattern exactly when their cleaned names agree. */
  lemma RulePatternSameClean(a: string, b: string)
    ensures RulePattern(a) == RulePattern(b) <==> CleanFormat(a) == CleanFormat(b)
  {
    if RulePattern(a) == RulePattern(b) {
      var ca, cb := CleanFormat(a), CleanFormat(b);
      assert |ca| == |cb|;
      assert ca == RulePattern(a)[|RulePrefix|..|RulePrefix| + |ca|];
      assert cb == RulePattern(b)[|RulePrefix|..|RulePrefix| + |cb|];
    }
  }

  /** The pattern has no space, so the rule splits at its first separator
      into the pattern and the nation, whatever the nation holds. */
  lemma RuleSplit(nation: string)
    ensures Split(Rule(nation), Separator) == [RulePattern(nation)] + Split(nation, Separator)
    ensures !Contains(nation, Separator) ==> Split(Rule(nation), Separator) == [RulePattern(nation), nation]
  {
    var clean := CleanFormat(nation);
    CleanFormatShape(nation);
    assert ' ' !in RulePrefix && ' ' !in PatternEnd;
    assert ' ' !in RulePattern(nation);
    assert Separator[0] == ' ';
    SplitAtFirst(Rule(nation), RulePattern(nation), Separator, nation);
    if !Contains(nation, Separator) {
      assert Split(nation, Separator) == [nation];
    }
  }

  /** What `main` prints for one input line: the rule of the stripped line,
      or an empty line for a blank one. */
  function RiseLine(line: string): string {
    var nation := Strip(line);
    if nation != "" then Rule(nation) else ""
  }

  /** An output line is empty exactly when its input line is blank. */
  lemma RiseLineBlank(line: string)
    ensures RiseLine(line) == "" <==> Strip(line) == ""
  {
  }

  /** What `main` prints, line by line. */
  function RiseOutput(lines: seq<string>): (r: seq<string>)
    ensures |r| == |lines|
    ensures forall i :: 0 <= i < |lines| ==> r[i] == RiseLine(lines[i])
  {
    seq(|lines|, i requires 0 <= i < |lines| => RiseLine(lines[i]))
  }

  /** The loop of `main`: one output line per input line, in order. */
  method RiseLines(lines: seq<string>) returns (out: seq<string>)
    ensures out == RiseOutput(lines)
  {
    ghost var spec := RiseOutput(lines);
    out := [];
    var i := 0;
    while i < |lines|
      invariant 0 <= i <= |lines|
      invariant out == spec[..i]
    {
      assert spec[..i + 1] == spec[..i] + [spec[i]];
      var nation := Strip(lines[i]);
      if nation != "" {
        out := out + [Rule(nation)];
      } else {
        out := out + [""];
      }
      i := i + 1;
    }
    assert spec[..|lines|] == spec;
  }
}
