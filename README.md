# Résumé optimizer: the keyword pipeline, in Dafny

This project models the deterministic core of the Resume_Optimizer
application (`app.py`): the rule-based keyword pipeline.

- **Keyword extraction.** `analyze_keywords` keeps the surface text of
  every non-stop token tagged NOUN, PROPN or ADJ. `extract_job_keywords`
  keeps the lowercased text of every non-stop token tagged NOUN, PROPN, ADJ
  or VERB. Both then deduplicate. The model writes them as one shared
  extraction, `Keywords.ExtractKeywords`, with the tag set and a text fold
  as parameters.
- **Matching and scoring.** The résumé keywords whose lowercase form is a
  job keyword are the matches (`Matching.MatchKeywords`). The score is
  the matched count as a percentage of the job keyword count, or 0 when
  there are no job keywords (`Matching.CalculateMatchScore`).
- **Rule-based restructuring.** `Restructure.OptimizeResumeRuleBased`
  splits the résumé on newlines. It grows a line list by appending, and
  joins the list with newlines. When something matches, the list is a
  "PROFESSIONAL SUMMARY" block, then the original lines, then a "SKILLS"
  block.

Modules: `Text` (split, join, per-character lowercasing, substring
occurrence), `Keywords`, `Matching`, `Restructure`.

The part-of-speech tagger is an input. Each function takes the tagger's
output as a sequence of `Token(text, pos, isStop)` records. Python's
`str.lower` is the per-character mapping `lower: char -> char`, also a
parameter. `Text.AsciiLower` is one concrete mapping, used in examples.
The score is an exact `real`.

Two behaviours of the code are worth stating up front:
- The score is not capped at 100. `Matching.ScoreCanExceedHundred` gives a
  score of 200, and `Matching.ScoreAtMostHundred` gives the condition under
  which 100 is a bound.
- `list(set(...))` leaves the order of each keyword list open. The model
  keeps first occurrences, and `Keywords.SameKeywordsArePermutations`
  shows that any other order is a permutation of the same list.

## Model

| member | source | states |
|---|---|---|
| Keywords.Candidates | app.py:40 | the comprehension before deduplication has at most one entry per token, one per token when every token qualifies and none when no token qualifies; CandidatesMembers states exactly which texts it holds |
| Keywords.CandidatesMembers | app.py:40 | a text is among the comprehension's results exactly when some token with an allowed tag, not a stop word, has that text after folding |
| Keywords.Dedup | app.py:41 | `list(set(s))` has no duplicates and has exactly the members of `s` |
| Keywords.ExtractKeywords | app.py:38-47 | the shared extraction is duplicate-free; every result is the folded text of a qualifying token, and every qualifying token's folded text is a result |
| Keywords.AnalyzeKeywords | app.py:38-41 | résumé keywords are duplicate-free; each is the unmodified text of a non-stop NOUN/PROPN/ADJ token; every such token's text is included; no tokens give no keywords |
| Keywords.ExtractJobKeywords | app.py:44-47 | job keywords are duplicate-free; each is the lowercased text of a non-stop NOUN/PROPN/ADJ/VERB token; every such token's lowercased text is included; no tokens give no keywords |
| Keywords.JobKeywordsAreLowercase | app.py:46-47 | under an idempotent case mapping, every job keyword is its own lowercase form |
| Keywords.AsciiJobKeywordsAreLowercase | app.py:46 | with the ASCII case mapping, which is idempotent, every job keyword is its own lowercase form |
| Keywords.SameKeywordsArePermutations | app.py:47 | any two duplicate-free lists with the same members are permutations of each other (equal multisets, equal lengths), so the open iteration order of `list(set(...))` changes only order |
| Matching.MatchKeywords | app.py:64 | a résumé keyword is matched exactly when its lowercase form is a job keyword; the matches are a subsequence of the résumé keywords, with order and casing kept |
| Matching.SubsequenceKeepsNoDuplicates | app.py:64 | a subsequence of a duplicate-free list is duplicate-free and contains only that list's members |
| Matching.MatchedAreDistinct | app.py:138 | matching a duplicate-free résumé keyword list (the comprehension at lines 64 and 138) gives a duplicate-free list |
| Matching.CalculateMatchScore | app.py:50-53 | the score is 0 for no job keywords; otherwise score times the job keyword count is 100 times the matched count; the score is never negative, and it is 0 exactly when nothing matched or there are no job keywords |
| Matching.DistinctFormsBound | app.py:64 | entries with pairwise distinct lowercase forms, all present in a list, are at most as many as that list's entries |
| Matching.ScoreAtMostHundred | app.py:53 | when no two matching keywords share a lowercase form, the score is at most 100 |
| Matching.ScoreCanExceedHundred | app.py:53 | "Python" and "python" both match the single job keyword "python", so the score is 200: it is not capped |
| Text.Join | app.py:89 | `sep.join` of no parts is the empty string and of one part is that part; JoinSplit and SplitJoin give the round trip with Split, JoinContainsPart that every part occurs in the result |
| Text.Lower | app.py:46 | `s.lower()` keeps the length and maps each character by the case mapping; under an idempotent mapping every character of the result is already lowercase (LowerIsLowercase) |
| Text.LowerIsLowercase | app.py:46 | under an idempotent case mapping, lowercasing a lowercased string changes nothing |
| Text.Split | app.py:70 | `s.split('\n')` has at least one piece and no piece contains the separator |
| Text.JoinSplit | app.py:70 | joining the pieces of a split with the separator gives the original string back |
| Text.SplitJoin | app.py:89 | splitting the join of separator-free lines gives the same lines back |
| Text.JoinFramed | app.py:74-89 | joining lines framed by a heading, a line and a blank line before, and a blank line, a heading and a line after, puts the joined lines unchanged between the two blocks |
| Text.JoinContainsPart | app.py:87 | every part occurs inside the join of the parts |
| Restructure.Take | app.py:76 | the slice `s[:n]` has exactly `n` entries, or all of `s` when `s` is shorter, and agrees with `s` entry by entry |
| Restructure.SummaryLine | app.py:76 | the summary sentence starts with the fixed lead-in and ends with a full stop; SummaryNamesFirstFive and SummaryIgnoresLaterKeywords state which keywords it names |
| Restructure.RuleBasedLines | app.py:71-87 | the line list built by the appends is the résumé's lines unchanged without matches; with matches it is those lines as one contiguous block, preceded by the summary heading, the summary sentence and a blank line, and followed by a blank line, the skills heading and the comma-joined matches |
| Restructure.OptimizeResumeRuleBased | app.py:56-89 | returns the matches of the extracted keywords and their score; without matches the text is the résumé unchanged; with matches it is the summary heading, the summary sentence, a blank line, the résumé text unchanged, a blank line, the skills heading and the comma-joined matches; when no keyword contains a newline, splitting the result gives exactly the line list of RuleBasedLines |
| Restructure.RuleBasedText | app.py:70-89 | joining the line list gives the résumé text unchanged without matches, and the résumé text framed by the two blocks otherwise |
| Restructure.RuleBasedLinesRoundTrip | app.py:89 | when no matching keyword contains a newline, splitting the rewritten text on newlines gives back exactly the line list that was joined |
| Restructure.SummaryNamesFirstFive | app.py:76 | each of the first five matching keywords occurs in the summary sentence |
| Restructure.SummaryIgnoresLaterKeywords | app.py:76 | the summary sentence depends only on the first five matching keywords |
| Restructure.SkillsNamesAll | app.py:87 | every matching keyword occurs in the comma-joined skills line |

## Left out

- Loading the spaCy model and downloading it with `os.system` (app.py:9-19): process-level I/O and a foreign model. The tagger's output is a parameter.
- The link between a text and its tokens: the model does not say how the tagger splits or tags text.
- PDF and DOCX text extraction (app.py:22-35): thin wrappers over libraries the model cannot see.
- The Streamlit interface, input validation and download button (app.py:92-192): interface plumbing with no logic of its own beyond the calls already modelled.
- The OpenAI rewrite path (app.py:155-178): a network call whose output is not deterministic.
- Formatting the score with two decimals (app.py:147), and IEEE floating-point rounding: the score is an exact real.
- Python's `str.lower` on the full Unicode range: a few characters lowercase to more than one character, and a capital sigma lowercases to 'ς' at the end of a word but to 'σ' elsewhere. The model maps each character to one character, independently of its neighbours, so for example résumé "ΟΔΟΣ" matches job keyword "οδος" in Python but never under a mapping that sends 'Σ' to 'σ'.
- The iteration order of `list(set(...))` (app.py:41, 47): Python leaves it open. The model keeps first occurrences. `Keywords.SameKeywordsArePermutations` shows that any other order gives a permutation of the same list. Facts about extraction are stated as membership and absence of duplicates, and facts about matching hold for any résumé keyword order.
- Restructure.OptimizeResumeRuleBased: its line-list form is stated only when no matching keyword contains a newline; a keyword with a newline would split into more lines. The text form is stated without that condition.
