/** Keyword extraction (app.py's `analyze_keywords` and
    `extract_job_keywords`). The part-of-speech tagger is not modelled: its
    output, one record per token, is the input of these functions. */
module Keywords {
  import opened Text

  /** The part-of-speech tags the pipeline tells apart; every other tag the
      tagger may produce is `Other`. */
  datatype Pos = Noun | Propn | Adj | Verb | Other

  /** One token as the tagger reports it: surface text, part-of-speech tag
      and stop-word flag. */
  datatype Token = Token(text: string, pos: Pos, isStop: bool)

  /** Tags kept for résumé keywords. */
  const ResumeTags: set<Pos> := {Noun, Propn, Adj}

  /** Tags kept for job-description keywords: the résumé tags plus verbs. */
  const JobTags: set<Pos> := {Noun, Propn, Adj, Verb}

  /** The comprehension's condition: tag allowed and not a stop word. */
  predicate Qualifies(t: Token, allowed: set<Pos>)
  {
    t.pos in allowed && !t.isStop
  }

  /** No element occurs twice. */
  predicate NoDuplicates(s: seq<string>)
  {
    forall i, j :: 0 <= i < j < |s| ==> s[i] != s[j]
  }

  /** The list comprehension before deduplication: `fold(token.text)` for
      every qualifying token, in token order. */
  function Candidates(tokens: seq<Token>, allowed: set<Pos>, fold: string -> string): (r: seq<string>)
    ensures |r| <= |tokens|
    ensures (forall i :: 0 <= i < |tokens| ==> Qualifies(tokens[i], allowed)) ==> |r| == |tokens|
    ensures (forall i :: 0 <= i < |tokens| ==> !Qualifies(tokens[i], allowed)) ==> r == []
  {
    if |tokens| == 0 then []
    else
      (if Qualifies(tokens[0], allowed) then [fold(tokens[0].text)] else [])
      + Candidates(tokens[1..], allowed, fold)
  }

  /** Exactly the folded texts of the qualifying tokens occur among the
      candidates. */
  lemma {:induction false} CandidatesMembers(tokens: seq<Token>, allowed: set<Pos>, fold: string -> string, w: string)
    ensures w in Candidates(tokens, allowed, fold)
        <==> exists i :: 0 <= i < |tokens| && Qualifies(tokens[i], allowed) && fold(tokens[i].text) == w
  {
    if |tokens| > 0 {
      CandidatesMembers(tokens[1..], allowed, fold, w);
      if exists i :: 0 <= i < |tokens[1..]| && Qualifies(tokens[1..][i], allowed) && fold(tokens[1..][i].text) == w {
        var i :| 0 <= i < |tokens[1..]| && Qualifies(tokens[1..][i], allowed) && fold(tokens[1..][i].text) == w;
        assert tokens[i + 1] == tokens[1..][i];
      }
      if exists i :: 0 <= i < |tokens| && Qualifies(tokens[i], allowed) && fold(tokens[i].text) == w {
        var i :| 0 <= i < |tokens| && Qualifies(tokens[i], allowed) && fold(tokens[i].text) == w;
        if i > 0 {
          assert tokens[1..][i - 1] == tokens[i];
        }
      }
    }
  }

  /** `list(set(s))`. Python leaves the order of the result open; this
      model keeps each element's first occurrence, which is one of the
      orders Python may produce (see SameKeywordsArePermutations). */
  function Dedup(s: seq<string>): (r: seq<string>)
    ensures NoDuplicates(r)
    ensures forall w :: w in r <==> w in s
  {
    if |s| == 0 then []
    else
      var d := Dedup(s[..|s| - 1]);
      var last := s[|s| - 1];
      assert s == s[..|s| - 1] + [last];
      if last in d then d else d + [last]
  }

  /** The shared extraction both call sites perform: keep qualifying tokens,
      fold their text, deduplicate. */
  function ExtractKeywords(tokens: seq<Token>, allowed: set<Pos>, fold: string -> string): (r: seq<string>)
    ensures NoDuplicates(r)
    ensures forall w :: w in r ==>
      exists i :: 0 <= i < |tokens| && Qualifies(tokens[i], allowed) && fold(tokens[i].text) == w
    ensures forall i :: 0 <= i < |tokens| && Qualifies(tokens[i], allowed) ==> fold(tokens[i].text) in r
  {
    var c := Candidates(tokens, allowed, fold);
    assert forall w :: w in c ==>
      exists i :: 0 <= i < |tokens| && Qualifies(tokens[i], allowed) && fold(tokens[i].text) == w
    by {
      forall w | w in c
        ensures exists i :: 0 <= i < |tokens| && Qualifies(tokens[i], allowed) && fold(tokens[i].text) == w
      {
        CandidatesMembers(tokens, allowed, fold, w);
      }
    }
    assert forall i :: 0 <= i < |tokens| && Qualifies(tokens[i], allowed) ==> fold(tokens[i].text) in c
    by {
      forall i | 0 <= i < |tokens| && Qualifies(tokens[i], allowed)
        ensures fold(tokens[i].text) in c
      {
        CandidatesMembers(tokens, allowed, fold, fold(tokens[i].text));
      }
    }
    Dedup(c)
  }

  /** `analyze_keywords`: the distinct surface texts, case kept, of the
      non-stop tokens tagged NOUN, PROPN or ADJ. */
  function AnalyzeKeywords(tokens: seq<Token>): (r: seq<string>)
    ensures NoDuplicates(r)
    ensures forall w :: w in r ==>
      exists i :: 0 <= i < |tokens| && tokens[i].pos in {Noun, Propn, Adj} && !tokens[i].isStop && tokens[i].text == w
    ensures forall i :: 0 <= i < |tokens| && tokens[i].pos in {Noun, Propn, Adj} && !tokens[i].isStop ==> tokens[i].text in r
    ensures tokens == [] ==> r == []
  {
    ExtractKeywords(tokens, ResumeTags, w => w)
  }

  /** `extract_job_keywords`: the distinct lowercased texts of the non-stop
      tokens tagged NOUN, PROPN, ADJ or VERB. */
  function ExtractJobKeywords(tokens: seq<Token>, lower: char -> char): (r: seq<string>)
    ensures NoDuplicates(r)
    ensures forall w :: w in r ==>
      exists i :: 0 <= i < |tokens| && tokens[i].pos in {Noun, Propn, Adj, Verb} && !tokens[i].isStop
        && Lower(tokens[i].text, lower) == w
    ensures forall i :: 0 <= i < |tokens| && tokens[i].pos in {Noun, Propn, Adj, Verb} && !tokens[i].isStop ==>
      Lower(tokens[i].text, lower) in r
    ensures tokens == [] ==> r == []
  {
    ExtractKeywords(tokens, JobTags, w => Lower(w, lower))
  }

  /** Every job keyword is already in lower case. */
  lemma JobKeywordsAreLowercase(tokens: seq<Token>, lower: char -> char, w: string)
    requires IdempotentLowering(lower)
    requires w in ExtractJobKeywords(tokens, lower)
    ensures Lower(w, lower) == w
  {
    var i :| 0 <= i < |tokens| && tokens[i].pos in JobTags && !tokens[i].isStop
      && Lower(tokens[i].text, lower) == w;
    LowerIsLowercase(tokens[i].text, lower);
  }

  /** With ASCII case mapping, every job keyword is its own lower-case form. */
  lemma AsciiJobKeywordsAreLowercase(tokens: seq<Token>, w: string)
    requires w in ExtractJobKeywords(tokens, AsciiLower)
    ensures Lower(w, AsciiLower) == w
  {
    AsciiLowerIsIdempotent();
    JobKeywordsAreLowercase(tokens, AsciiLower, w);
  }

  /** In a duplicate-free list every member occurs exactly once. */
  lemma {:induction false} NoDuplicatesOccurOnce(s: seq<string>, w: string)
    requires NoDuplicates(s)
    ensures multiset(s)[w] == if w in s then 1 else 0
  {
    if |s| > 0 {
      var init := s[..|s| - 1];
      assert s == init + [s[|s| - 1]];
      assert NoDuplicates(init);
      NoDuplicatesOccurOnce(init, w);
      assert s[|s| - 1] !in init;
    }
  }

  /** Any two duplicate-free lists with the same members are permutations
      of one another: whatever order `list(set(...))` picks, the keyword
      list is the same multiset as the one this model computes. */
  lemma SameKeywordsArePermutations(a: seq<string>, b: seq<string>)
    requires NoDuplicates(a) && NoDuplicates(b)
    requires forall w :: w in a <==> w in b
    ensures multiset(a) == multiset(b)
    ensures |a| == |b|
  {
    forall w ensures multiset(a)[w] == multiset(b)[w] {
      NoDuplicatesOccurOnce(a, w);
      NoDuplicatesOccurOnce(b, w);
    }
    assert multiset(a) == multiset(b);
    assert |multiset(a)| == |a| && |multiset(b)| == |b|;
  }
}
