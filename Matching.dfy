/** Matching résumé keywords against job keywords (the comprehension at
    app.py lines 64 and 138) and the match score (`calculate_match_score`).
    The score is an exact real number, not an IEEE float. */
module Matching {
  import opened Text
  import opened Keywords

  /** `a` is `b` with some elements left out, the rest in the same order. */
  predicate IsSubsequence(a: seq<string>, b: seq<string>)
  {
    if |a| == 0 then true
    else if |b| == 0 then false
    else if a[0] == b[0] then IsSubsequence(a[1..], b[1..])
    else IsSubsequence(a, b[1..])
  }

  /** `[kw for kw in resume_keywords if kw.lower() in job_keywords]`. */
  function MatchKeywords(resumeKeywords: seq<string>, jobKeywords: seq<string>, lower: char -> char): (r: seq<string>)
    ensures forall w :: w in r <==> w in resumeKeywords && Lower(w, lower) in jobKeywords
    ensures IsSubsequence(r, resumeKeywords)
  {
    if |resumeKeywords| == 0 then []
    else
      var kw := resumeKeywords[0];
      var rest := MatchKeywords(resumeKeywords[1..], jobKeywords, lower);
      assert resumeKeywords == [kw] + resumeKeywords[1..];
      if Lower(kw, lower) in jobKeywords then
        assert ([kw] + rest)[1..] == rest;
        [kw] + rest
      else
        rest
  }

  /** A subsequence of a duplicate-free list is duplicate-free. */
  lemma {:induction false} SubsequenceKeepsNoDuplicates(a: seq<string>, b: seq<string>)
    requires IsSubsequence(a, b) && NoDuplicates(b)
    ensures NoDuplicates(a)
    ensures forall w :: w in a ==> w in b
  {
    if |a| > 0 {
      assert NoDuplicates(b[1..]);
      if a[0] == b[0] {
        SubsequenceKeepsNoDuplicates(a[1..], b[1..]);
        assert b[0] !in b[1..];
        assert a == [a[0]] + a[1..];
      } else {
        SubsequenceKeepsNoDuplicates(a, b[1..]);
      }
    }
  }

  /** The matching keywords of a duplicate-free résumé list keep the
      résumé's casing and order and contain no duplicates. */
  lemma {:induction false} MatchedAreDistinct(resumeKeywords: seq<string>, jobKeywords: seq<string>, lower: char -> char)
    requires NoDuplicates(resumeKeywords)
    ensures NoDuplicates(MatchKeywords(resumeKeywords, jobKeywords, lower))
  {
    SubsequenceKeepsNoDuplicates(MatchKeywords(resumeKeywords, jobKeywords, lower), resumeKeywords);
  }

  /** `calculate_match_score`: 0 for an empty job keyword list, otherwise
      the matched count as a percentage of the job keyword count. */
  function CalculateMatchScore(jobKeywords: seq<string>, matching: seq<string>): (r: real)
    ensures |jobKeywords| == 0 ==> r == 0.0
    ensures |jobKeywords| > 0 ==> r * (|jobKeywords| as real) == 100.0 * (|matching| as real)
    ensures r >= 0.0
    ensures r == 0.0 <==> |jobKeywords| == 0 || |matching| == 0
  {
    if |jobKeywords| == 0 then 0.0
    else (|matching| as real / |jobKeywords| as real) * 100.0
  }

  /** The members of a list are at most as many as its entries, and
      exactly as many when it has no duplicates. */
  lemma {:induction false} MembersCount(s: seq<string>)
    ensures |set w | w in s| <= |s|
    ensures NoDuplicates(s) ==> |set w | w in s| == |s|
  {
    if |s| > 0 {
      var init := s[..|s| - 1];
      var last := s[|s| - 1];
      MembersCount(init);
      assert s == init + [last];
      assert (set w | w in s) == (set w | w in init) + {last};
      if NoDuplicates(s) {
        assert NoDuplicates(init);
        assert last !in init;
      }
    }
  }

  /** The lowercased forms of the entries of `s`, in order. */
  function LowerAll(s: seq<string>, lower: char -> char): (r: seq<string>)
    ensures |r| == |s|
    ensures forall i :: 0 <= i < |s| ==> r[i] == Lower(s[i], lower)
  {
    if |s| == 0 then [] else [Lower(s[0], lower)] + LowerAll(s[1..], lower)
  }

  /** No two entries share a lower-case form. */
  predicate DistinctLowerForms(m: seq<string>, lower: char -> char)
  {
    forall i, j :: 0 <= i < j < |m| ==> Lower(m[i], lower) != Lower(m[j], lower)
  }

  /** Entries whose lower-case forms are pairwise distinct and all occur
      in `target` are at most as many as the entries of `target`. */
  lemma DistinctFormsBound(m: seq<string>, target: seq<string>, lower: char -> char)
    requires DistinctLowerForms(m, lower)
    requires forall i :: 0 <= i < |m| ==> Lower(m[i], lower) in target
    ensures |m| <= |target|
  {
    var images := LowerAll(m, lower);
    assert NoDuplicates(images);
    MembersCount(images);
    MembersCount(target);
    var imageSet := set w | w in images;
    var targetSet := set w | w in target;
    assert imageSet <= targetSet;
    SubsetCount(imageSet, targetSet);
  }

  /** When no two matching keywords share a lower-case form, there are at
      most as many of them as job keywords, so the score is at most 100. */
  lemma ScoreAtMostHundred(resumeKeywords: seq<string>, jobKeywords: seq<string>, lower: char -> char)
    requires DistinctLowerForms(MatchKeywords(resumeKeywords, jobKeywords, lower), lower)
    ensures CalculateMatchScore(jobKeywords, MatchKeywords(resumeKeywords, jobKeywords, lower)) <= 100.0
  {
    var m := MatchKeywords(resumeKeywords, jobKeywords, lower);
    assert forall i :: 0 <= i < |m| ==> Lower(m[i], lower) in jobKeywords by {
      forall i | 0 <= i < |m| ensures Lower(m[i], lower) in jobKeywords {
        assert m[i] in m;
      }
    }
    DistinctFormsBound(m, jobKeywords, lower);
    if |jobKeywords| > 0 {
      PercentageAtMostHundred(|m|, |jobKeywords|);
    }
  }

  /** A part of a whole is at most 100 per cent of it. */
  lemma PercentageAtMostHundred(part: nat, whole: nat)
    requires 0 < whole && part <= whole
    ensures (part as real / whole as real) * 100.0 <= 100.0
  {
    assert part as real / whole as real <= 1.0;
  }

  /** A subset has no more elements than its superset. */
  lemma {:induction false} SubsetCount(a: set<string>, b: set<string>)
    requires a <= b
    ensures |a| <= |b|
  {
    assert b == a + (b - a);
  }

  /** The score is not capped at 100: "Python" and "python" both match the
      single job keyword "python", giving 200. */
  lemma ScoreCanExceedHundred()
    ensures MatchKeywords(["Python", "python"], ["python"], AsciiLower) == ["Python", "python"]
    ensures CalculateMatchScore(["python"], ["Python", "python"]) == 200.0
  {
    var upper := Lower("Python", AsciiLower);
    assert upper[0] == AsciiLower('P') == 'p';
    assert upper[1] == AsciiLower('y') == 'y';
    assert upper[2] == AsciiLower('t') == 't';
    assert upper[3] == AsciiLower('h') == 'h';
    assert upper[4] == AsciiLower('o') == 'o';
    assert upper[5] == AsciiLower('n') == 'n';
    assert upper == "python";
    var same := Lower("python", AsciiLower);
    assert same[0] == AsciiLower('p') == 'p';
    assert same[1] == AsciiLower('y') == 'y';
    assert same[2] == AsciiLower('t') == 't';
    assert same[3] == AsciiLower('h') == 'h';
    assert same[4] == AsciiLower('o') == 'o';
    assert same[5] == AsciiLower('n') == 'n';
    assert same == "python";
    var rest := ["Python", "python"][1..];
    assert rest == ["python"] && rest[1..] == [];
    assert MatchKeywords(rest, ["python"], AsciiLower) == ["python"];
  }
}
