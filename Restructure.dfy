/** The rule-based résumé rewrite (`optimize_resume_rule_based`): extract
    both keyword lists, match and score them, then surround the résumé's
    lines with a summary block and a skills block naming the matches. */
module Restructure {
  import opened Text
  import opened Keywords
  import opened Matching

  const SummaryHeading: string := "PROFESSIONAL SUMMARY"
  const SkillsHeading: string := "SKILLS"
  const SummaryLead: string := "Experienced professional with expertise in "
  const KeywordSeparator: string := ", "

  /** How many matching keywords the summary sentence names. */
  const SummaryLimit: nat := 5

  /** Python's slice `s[:n]`: the first `n` entries, or all of them when
      there are fewer. */
  function Take(s: seq<string>, n: nat): (r: seq<string>)
    ensures |r| == if |s| <= n then |s| else n
    ensures |s| <= n ==> r == s
    ensures forall i :: 0 <= i < |r| ==> r[i] == s[i]
  {
    if |s| <= n then s else s[..n]
  }

  /** The summary sentence, naming the first five matching keywords
      (SummaryNamesFirstFive). */
  function SummaryLine(matching: seq<string>): (r: string)
    ensures SummaryLead <= r && r[|r| - 1] == '.'
  {
    SummaryLead + Join(Take(matching, SummaryLimit), KeywordSeparator) + "."
  }

  /** `optimize_resume_rule_based`. `resumeTokens` and `jobTokens` are what
      the tagger reports for `resumeText` and the job description; `lower`
      is the case mapping of `str.lower`. Returns the rewritten text, the
      score and the matching keywords. */
  method OptimizeResumeRuleBased(resumeText: string, resumeTokens: seq<Token>, jobTokens: seq<Token>, lower: char -> char)
    returns (optimized: string, score: real, matching: seq<string>)
    ensures matching == MatchKeywords(AnalyzeKeywords(resumeTokens), ExtractJobKeywords(jobTokens, lower), lower)
    ensures score == CalculateMatchScore(ExtractJobKeywords(jobTokens, lower), matching)
    ensures matching == [] ==> optimized == resumeText
    ensures matching != [] ==>
      optimized == SummaryHeading + "\n" + SummaryLine(matching) + "\n\n"
        + resumeText
        + "\n\n" + SkillsHeading + "\n" + Join(matching, KeywordSeparator)
    ensures (forall w :: w in matching ==> '\n' !in w) ==>
      Split(optimized, '\n') == RuleBasedLines(Split(resumeText, '\n'), matching)
  {
    var jobKeywords := ExtractJobKeywords(jobTokens, lower);
    var resumeKeywords := AnalyzeKeywords(resumeTokens);
    matching := MatchKeywords(resumeKeywords, jobKeywords, lower);
    score := CalculateMatchScore(jobKeywords, matching);

    var lines := Split(resumeText, '\n');
    var optimizedLines: seq<string> := [];
    if matching != [] {
      optimizedLines := optimizedLines + [SummaryHeading];
      var summary := SummaryLine(matching);
      optimizedLines := optimizedLines + [summary];
      optimizedLines := optimizedLines + [""];
      assert optimizedLines == [SummaryHeading, summary, ""];
    }
    optimizedLines := optimizedLines + lines;
    if matching != [] {
      optimizedLines := optimizedLines + [""];
      optimizedLines := optimizedLines + [SkillsHeading];
      optimizedLines := optimizedLines + [Join(matching, KeywordSeparator)];
      assert optimizedLines
        == [SummaryHeading, SummaryLine(matching), ""] + lines + ["", SkillsHeading, Join(matching, KeywordSeparator)];
    }
    optimized := Join(optimizedLines, "\n");

    assert optimizedLines == RuleBasedLines(lines, matching);
    RuleBasedText(resumeText, matching);
    if forall w :: w in matching ==> '\n' !in w {
      RuleBasedLinesRoundTrip(resumeText, matching);
    }
  }

  /** The line list the rewrite builds from the résumé's lines: unchanged
      without matches, framed by the summary and skills blocks otherwise. */
  function RuleBasedLines(lines: seq<string>, matching: seq<string>): (r: seq<string>)
    ensures matching == [] ==> r == lines
    ensures matching != [] ==>
      |r| == |lines| + 6 && r[3..|r| - 3] == lines
      && r[0] == SummaryHeading && r[2] == "" && r[|r| - 3] == "" && r[|r| - 2] == SkillsHeading
      && r[1] == SummaryLine(matching) && r[|r| - 1] == Join(matching, KeywordSeparator)
  {
    if matching == [] then lines
    else [SummaryHeading, SummaryLine(matching), ""] + lines + ["", SkillsHeading, Join(matching, KeywordSeparator)]
  }

  /** What joining the rewrite's line list gives: the résumé text
      unchanged, framed by the two blocks when something matched. */
  lemma RuleBasedText(resumeText: string, matching: seq<string>)
    ensures matching == [] ==> Join(RuleBasedLines(Split(resumeText, '\n'), matching), "\n") == resumeText
    ensures matching != [] ==>
      Join(RuleBasedLines(Split(resumeText, '\n'), matching), "\n")
        == SummaryHeading + "\n" + SummaryLine(matching) + "\n\n"
          + resumeText
          + "\n\n" + SkillsHeading + "\n" + Join(matching, KeywordSeparator)
  {
    JoinSplit(resumeText, '\n');
    if matching != [] {
      JoinFramed(SummaryHeading, SummaryLine(matching), Split(resumeText, '\n'),
                 SkillsHeading, Join(matching, KeywordSeparator), "\n");
      assert "\n" + "\n" == "\n\n";
    }
  }

  /** Splitting the rewritten text again gives back the exact line list,
      provided no matching keyword contains a newline. */
  lemma RuleBasedLinesRoundTrip(resumeText: string, matching: seq<string>)
    requires forall w :: w in matching ==> '\n' !in w
    ensures Split(Join(RuleBasedLines(Split(resumeText, '\n'), matching), "\n"), '\n')
      == RuleBasedLines(Split(resumeText, '\n'), matching)
  {
    LinesHaveNoNewline(matching);
    SplitJoin(RuleBasedLines(Split(resumeText, '\n'), matching), '\n');
  }

  /** Without newlines in the keywords, no generated line contains one. */
  lemma LinesHaveNoNewline(matching: seq<string>)
    requires forall w :: w in matching ==> '\n' !in w
    ensures '\n' !in SummaryLine(matching)
    ensures '\n' !in Join(matching, KeywordSeparator)
  {
    JoinAvoids(matching, KeywordSeparator, '\n');
    var first := Take(matching, SummaryLimit);
    assert forall i :: 0 <= i < |first| ==> first[i] == matching[i] && matching[i] in matching;
    JoinAvoids(first, KeywordSeparator, '\n');
    var named := Join(first, KeywordSeparator);
    assert '\n' !in SummaryLead && '\n' !in ".";
    assert forall c :: c in SummaryLead + named + "." ==> c in SummaryLead || c in named || c in ".";
  }

  /** The summary depends on the first five matching keywords only. */
  lemma SummaryIgnoresLaterKeywords(a: seq<string>, b: seq<string>)
    requires Take(a, SummaryLimit) == Take(b, SummaryLimit)
    ensures SummaryLine(a) == SummaryLine(b)
  {
  }

  /** The summary names each of the first five matching keywords. */
  lemma SummaryNamesFirstFive(matching: seq<string>, k: nat)
    requires k < |matching| && k < SummaryLimit
    ensures Contains(SummaryLine(matching), matching[k])
  {
    var named := Join(Take(matching, SummaryLimit), KeywordSeparator);
    JoinContainsPart(Take(matching, SummaryLimit), KeywordSeparator, k);
    ContainsInside(SummaryLead, named, ".");
  }

  /** The skills line names every matching keyword. */
  lemma SkillsNamesAll(matching: seq<string>, k: nat)
    requires k < |matching|
    ensures Contains(Join(matching, KeywordSeparator), matching[k])
  {
    JoinContainsPart(matching, KeywordSeparator, k);
  }
}
