# Diagnostic expert system: inference, learning and authoring

A Dafny model of the core of a console expert system that diagnoses
computer faults. Its knowledge base holds symptoms, solutions and rules;
each rule lists symptom ids and proposes one solution. The core has four
parts:

- **Scoring** (`match_solutions`). Given the user's symptom ids, the engine
  scores every rule and drops those that share no symptom with the query.
  It sorts the rest by score, highest first, with a stable sort.
  - In the current script and in v15 the score is the F1 of two coverages,
    rule coverage |S∩U|/|S| and query coverage |S∩U|/|U|, multiplied by a
    Laplace-smoothed historical precision (s+1)/(s+f+2).
  - In v11 the score is only |S∩U|/len(rule list), times the same precision.
- **Learning** (`update_history` and the feedback block of `consult`). The
  per-rule success and fail counters change after the user says which
  solution worked.
  - Current script and v15: the chosen rule gets +1 success and the other
    shown rules +0.1 fail. With no choice, every shown rule gets +0.1 fail.
  - v11: only the chosen rule changes, by +1 success. With no choice, every
    shown rule gets +1 fail.
- **Authoring** (`add_rule`). Appends new symptoms, one solution and one
  rule. Every id is `max(existing ids, default 0) + 1`.
- **Helpers.** The comma-separated id parser, the parsing of the answer
  "which solution worked?", and `paginate_list`.

Modules:

- `Knowledge`: the data model, including `KnowledgeBase`, a class whose
  three lists authoring appends to.
- `ConsoleInput`: Python's `split`, `strip`, `isdigit` and `int`; the id
  parser and its inverse; the resolution of the typed answer.
- `StableSort`: `list.sort(key=..., reverse=True)` as stable insertion
  sort.
- `Ratio`: small facts about real products and quotients.
- `Engine`: the `InferenceEngine` class and the feedback block of the
  current script. v15's `InferenceEngine` is the same code (comments
  aside), so it is modelled once, here, and the table cites both files.
- `Pagination`: `paginate_list` and `get_page`, with Python's slice rules.
- `Authoring`: `add_rule`. It is the same in all three files.
- `V15`: v15's `consult`. It shows all matches and reads the chosen number
  as free text.
- `V11`: the oldest engine, its feedback and its `consult`.

What is modelled imperatively, with loops and their invariants:

- the rule loops of `match_solutions`;
- the history updates;
- the feedback loops;
- the symptom loop of `add_rule`.

Each of these methods is proved against a specification function on values:
`Ranking`, `Recorded`, `AfterFeedback` or `Authored`. The lemmas then prove
the promised properties about those functions.

Where the code and its documentation disagree, the model follows the code:

- When no solution worked, the code calls `update_history(.., False)`
  without a penalty, so the default 0.1 applies and not a full 1.0.
  This holds for the current script and v15, although v15's comment calls it
  the "normal" penalty (see `V15.BlankAnswer` and `Engine.FeedbackNoneChosen`).
- `paginate_list` slices with Python semantics: page 0 is empty and
  negative pages wrap around to the end of the list.

Inputs that come from the console are parameters of the model:

- `idsText`: the typed symptom ids;
- `answer`: the typed choice;
- `wantsNew`: the answer to "add new symptoms?" after `.lower()`;
- `lines`: the typed symptom names;
- `solutionName`: the new solution's description.

## Model

| member | source | states |
|---|---|---|
| Knowledge.SymptomSet | project/engine.py:148 | the set of a rule's id list holds exactly the ids the list holds |
| Knowledge.KnowledgeBase.constructor | project/engine.py:36-38 | the knowledge base holds the symptom, solution and rule lists it was loaded with |
| ConsoleInput.Split | evidence/versions/v15.py:237 | `str.split(",")` always yields at least one piece (`""` yields `[""]`) |
| ConsoleInput.ParseIdsAppend | evidence/versions/v15.py:237 | parsing `a + "," + b` gives the ids of `a` followed by the ids of `b` |
| ConsoleInput.ParseJoinIds | evidence/versions/v15.py:237 | round trip: any list of ids written as comma-joined decimals parses back to the same list in the same order |
| ConsoleInput.ParsePiece | evidence/versions/v15.py:237 | a comma-free token yields its value when it is all digits once stripped, and nothing otherwise |
| ConsoleInput.ParseSpaceSeparated | evidence/versions/v15.py:237 | space-separated ids `"1 2"` yield no id at all |
| ConsoleInput.ParsePadded | project/engine.py:489 | surrounding blanks are ignored: `" 3 "` yields `[3]` |
| ConsoleInput.ParseNonNumbers | evidence/versions/v11.py:150 | non-numeric and empty text yield no id |
| ConsoleInput.ResolveAnswer | evidence/versions/v15.py:255-257 | a non-digit answer means none worked; a digit answer selects an entry that was shown; IndexError happens exactly when the number is past the end or nothing was shown |
| ConsoleInput.ResolveNumber | evidence/versions/v15.py:257 | typing k, 1 <= k <= number shown, selects the k-th entry |
| ConsoleInput.ResolveZero | evidence/versions/v15.py:257 | typing 0 selects the last entry (Python index -1) |
| StableSort.SortSorted | project/engine.py:191 | the sorted list has non-increasing keys |
| StableSort.SortPermutes | project/engine.py:191 | the sorted list is a permutation of the input |
| StableSort.SortStable | project/engine.py:191 | elements with equal keys keep their input order |
| StableSort.SortLength | project/engine.py:191 | sorting keeps the length |
| Engine.Assess | project/engine.py:148-167 | rule coverage, query coverage and F1 all lie in [0, 1]; an empty rule gets 0 for all three |
| Engine.ComputeCoverage | project/engine.py:148-167 | the in-loop computation of the two coverages and the F1 yields exactly `Assess` of the rule set and the query set |
| Engine.HarmonicMeanBounds | project/engine.py:163-167 | the harmonic mean of two values in [0, 1] lies in [0, 1] |
| Engine.MatchClosedForm | project/engine.py:156-167 | for a non-empty rule and query, the F1 equals 2·|S∩U| / (|S| + |U|) |
| Engine.MatchPositiveIffOverlap | project/engine.py:151-167 | the F1 is positive exactly when the rule and the query share a symptom |
| Engine.MatchOneIffEqual | project/engine.py:151-167 | the F1 is 1 exactly when the rule's symptom set equals the query set (both non-empty) |
| Engine.HistoricalPrecision | project/engine.py:195-213 | the precision always lies strictly between 0 and 1 |
| Engine.PrecisionIsLaplace | project/engine.py:203-213 | both 0.5 branches agree with (s + 1) / (s + f + 2) of the counters as read (missing ones as 0) |
| Engine.PrecisionMonotone | project/engine.py:203-213 | the precision never decreases as success grows and never increases as fail grows |
| Engine.FindSolution | project/engine.py:215-225 | the name of the first solution with the id, or "Solução desconhecida" when none has it |
| Engine.Weighted | project/engine.py:172 | score = match · precision never exceeds the match and is non-negative |
| Engine.Evaluate | project/engine.py:147-185 | the entry of a rule carries its id, its solution name and the rule's historical precision; its coverages and adherence are `Assess` of the rule set and the query set; its score is the adherence weighted by the precision (`Weighted`, match · precision); 0 <= score <= match <= 1; the match is positive exactly when the rule shares a symptom with the query |
| Engine.ScoreAll | project/engine.py:147-185 | one entry per rule, each with 0 <= score <= match <= 1 and precision in (0, 1) |
| Engine.Relevant | project/engine.py:188 | the filter keeps only entries of the input with a positive match |
| Engine.RelevantIsOverlapping | project/engine.py:147-188 | filtering the scored rules equals scoring just the rules that share a symptom with the query, in knowledge-base order |
| Engine.RankingEntries | project/engine.py:147-191 | the result holds exactly one entry per rule that shares a symptom with the query (as multisets) |
| Engine.RankingMembers | project/engine.py:147-191 | an entry is in the result iff it is the entry of some rule sharing a symptom with the query |
| Engine.RankingSorted | project/engine.py:191 | the result is ordered by non-increasing score |
| Engine.RankingStable | project/engine.py:191 | entries with equal scores appear in knowledge-base order |
| Engine.RankingPositive | project/engine.py:151-191 | every entry shown has 0 < match <= 1, precision in (0, 1) and 0 <= score <= match |
| Engine.EmptyQuery | project/engine.py:144-191 | an empty query yields an empty result |
| Engine.EmptyRuleNeverShown | project/engine.py:151-155 | a rule without symptoms gets match 0 and never appears, whatever the query |
| Engine.SeedRuleFullQuery | project/engine.py:99 | seed rule 1 = {1, 2} with no history: query [1, 2] gives match 1, precision 0.5 and score 0.5 |
| Engine.SeedRulePartialQuery | project/engine.py:99 | the same rule on query [1]: coverages 1/2 and 1, match 2/3 and score 1/3 |
| Engine.Recorded | project/engine.py:227-244 | an absent rule starts at {0, 0}; a success adds exactly 1 to success, a failure adds the penalty to fail; the other counter and every other rule are unchanged |
| Engine.SuccessRaisesPrecision | project/engine.py:239-241 | a recorded success strictly raises the rule's precision |
| Engine.FailureLowersPrecision | project/engine.py:242-244 | a recorded failure with a positive penalty strictly lowers the rule's precision |
| Engine.FirstFeedbackPrecision | project/engine.py:236-244 | from no history one success gives 2/3, one full failure 1/3 and one default failure 1/2.1 |
| Engine.PenalizedCounts | project/engine.py:436-444 | recording a failure for each shown rule adds the penalty once per showing to each non-chosen rule and never touches success |
| Engine.PenalizedUntouched | project/engine.py:436-444 | the chosen rule and every rule not shown keep their record (or its absence) |
| Engine.FeedbackChosen | project/engine.py:430-437 | with a choice: the chosen rule gains exactly one success, every other shown rule 0.1 of fail per showing, every rule not shown is untouched |
| Engine.FeedbackNoneChosen | project/engine.py:441-444 | with no choice: every shown rule gains the default 0.1 of fail per showing and no success; the rest are untouched |
| Engine.InferenceEngine.constructor | project/engine.py:131-133 | the engine holds the shared knowledge base and the given history |
| Engine.InferenceEngine.MatchSolutions | project/engine.py:135-193 | returns exactly `Ranking` of the rules, the solutions, the history and the set of the query (v15's `match_solutions` is the same code) |
| Engine.InferenceEngine.UpdateHistory | project/engine.py:227-244 | the new history is `Recorded` of the old one, and counters stay non-negative (the same code as v15's, lines 190 to 200) |
| Engine.ApplyFeedback | project/engine.py:428-444 | the history after the feedback block is `AfterFeedback` of the shown rule ids and the chosen rule (v15's loops, lines 259 to 272, are the same) |
| Pagination.SliceBound | project/engine.py:266 | Python's normalisation of a slice bound: in range kept, negative counted from the end, clamped to [0, n] |
| Pagination.PySlice | project/engine.py:266 | a slice is never longer than the list |
| Pagination.TotalPages | project/engine.py:255 | there is always at least one page |
| Pagination.PaginateList | project/engine.py:247-268 | returns at least one page and an accessor that is `get_page` on every page number |
| Pagination.TotalPagesIsCeiling | project/engine.py:255 | total_pages = max(1, ⌈n / page_size⌉): the pages hold all items and the last one is not empty unless the list is |
| Pagination.PageContents | project/engine.py:264-266 | page p >= 1 holds items[(p-1)·size .. p·size], cut at the end of the list |
| Pagination.PageSizeBound | project/engine.py:264-266 | no page holds more than page_size items |
| Pagination.PagesPastEndEmpty | project/engine.py:255-266 | the pages after the last one are empty |
| Pagination.PageZeroEmpty | project/engine.py:264-266 | page 0 is empty |
| Pagination.NegativePageWraps | project/engine.py:264-266 | page -1 wraps to the second-to-last block of page_size items |
| Pagination.PagesUpToPrefix | project/engine.py:258-266 | pages 1..k concatenated are the first k·page_size items |
| Pagination.PagesReassemble | project/engine.py:247-268 | concatenating pages 1..total_pages reproduces the list |
| Authoring.Max | project/engine.py:478 | `max` of a non-empty id list is one of its ids and no id exceeds it |
| Authoring.NextId | project/engine.py:478 | `max(ids, default=0) + 1` is larger than every id, is 1 for no ids, and is otherwise one more than an existing id |
| Authoring.TypedNames | project/engine.py:470-475 | the names read are the stripped lines up to the first blank one; none is empty |
| Authoring.NewSymptomsNumbering | project/engine.py:478-481 | creating the symptoms one by one with `max + 1` numbers them consecutively from the first fresh id |
| Authoring.NewSymptomsDistinct | project/engine.py:478-481 | the new symptom ids differ from each other and from the old ones |
| Authoring.AuthoredAppendsFresh | project/engine.py:478-506 | authoring only appends, and each new symptom, solution and rule id is larger than every existing id of its list |
| Authoring.AuthoredRule | project/engine.py:489-506 | the new rule proposes the new solution and lists the typed ids followed by the ids of the symptoms just created (none when the user declined) |
| Authoring.AuthoredKeepsUnique | project/engine.py:478-506 | if every list had distinct ids before, it still has after |
| Authoring.AddTypedSymptoms | project/engine.py:469-482 | the loop appends the typed names as new symptoms numbered from the first fresh id and returns their ids; solutions and rules are unchanged |
| Authoring.AddRule | project/engine.py:466-506 | the knowledge base afterwards is `Authored` of the one before (v15 and v11 hold the same `add_rule`) |
| V15.Consult | evidence/versions/v15.py:232-275 | the matches are `Ranking` of the parsed query; nothing is asked or changed when there are none; otherwise the answer is resolved and the history becomes `Learned` of it (unchanged on IndexError) |
| V15.AnswerNumber | evidence/versions/v15.py:255-266 | answering k in 1..number shown rewards the k-th match and penalizes the others lightly |
| V15.AnswerZero | evidence/versions/v15.py:257 | answering 0 rewards the last match shown |
| V15.AnswerOutOfRange | evidence/versions/v15.py:257 | a number past the last match changes nothing (IndexError) |
| V15.BlankAnswer | evidence/versions/v15.py:268-272 | an empty answer adds the default 0.1 of fail per showing to every shown rule and no success, despite the "normal" penalty the comment announces |
| V11.MatchRatio | evidence/versions/v11.py:75 | the ratio lies in [0, 1] and is positive exactly when the rule shares a symptom with the query |
| V11.ConfidenceAgrees | evidence/versions/v11.py:91-98 | on complete records v11's precision equals the current engine's, strictly between 0 and 1 |
| V11.Suggest | evidence/versions/v11.py:76-87 | the suggestion carries the rule's id and solution, its ratio, its precision, and 0 <= score <= ratio <= 1 |
| V11.Suggestions | evidence/versions/v11.py:74-87 | no more suggestions than rules, each with a positive ratio and 0 <= score <= ratio |
| V11.SuggestionsOfOverlapping | evidence/versions/v11.py:74-87 | the suggestions are exactly one per rule sharing a symptom with the query, in knowledge-base order, each the `Suggest` entry of that rule |
| V11.RankedOrder | evidence/versions/v11.py:88 | the result is sorted by non-increasing score, is a permutation of the suggestions, and keeps ties in knowledge-base order |
| V11.RatioMonotone | evidence/versions/v11.py:75 | adding symptoms to the query never lowers a rule's ratio |
| V11.ExtraSymptomsIgnored | evidence/versions/v11.py:75 | a rule listing each symptom once scores 1 whenever all of them are given, however many extras come with them; the current engine's F1 stays below 1 with extras |
| V11.RepeatedSymptomHalvesRatio | evidence/versions/v11.py:75 | the denominator is the list length: rule [1, 1] scores 1/2 on query [1], where the current engine gives 1 |
| V11.SameRulesSuggested | evidence/versions/v11.py:74-87 | without empty rules v11 suggests the same rules, in the same order before sorting, as the current engine |
| V11.NoneWorkedCounts | evidence/versions/v11.py:167-169 | with no choice every shown rule gains exactly 1 fail per showing and no success; rules not shown are untouched |
| V11.InferenceEngine.constructor | evidence/versions/v11.py:67-69 | the engine holds the knowledge base and a history of complete, non-negative records |
| V11.InferenceEngine.MatchSolutions | evidence/versions/v11.py:71-89 | fails (ZeroDivisionError) exactly when some rule has no symptoms; otherwise returns `Ranked` of the query set |
| V11.InferenceEngine.UpdateHistory | evidence/versions/v11.py:106-113 | adds exactly 1 to success or to fail: the new history is `Recorded` with penalty 1 |
| V11.ApplyFeedback | evidence/versions/v11.py:163-169 | with a choice only the chosen rule gets a success; with none every shown rule gets a failure of 1 |
| V11.Consult | evidence/versions/v11.py:145-172 | the matches are `Ranked` of the parsed query (or the division by zero); nothing is asked without matches; otherwise the resolved answer drives `Learned` |
| V11.AuthoringEmptyRule | evidence/versions/v11.py:183-210 | answering "n" and typing no valid id creates a rule with an empty symptom list |

## Findings

| source | as written | input that shows it | evidently intended | confidence | as-written member | corrected member |
|---|---|---|---|---|---|---|
| evidence/versions/v11.py:75 | `match_ratio` divides by `len(rule["symptoms"])` with no guard, and `add_rule` of the same file accepts a rule with no symptoms | `add_rule` with answer "n" and ids "" (or "x"), then any consultation: ZeroDivisionError in `match_solutions` | a rule without symptoms scores 0 and is skipped, as the later versions do with `if not rule_set` | not executed | V11.AuthoringEmptyRule | Engine.EmptyRuleNeverShown |

`V11.InferenceEngine.MatchSolutions` returns None exactly when some rule is
empty. With `V11.AuthoringEmptyRule`, that shows the crash follows every
such authoring step. The current engine's `Engine.Assess` guards the empty
rule, and `Engine.EmptyRuleNeverShown` proves that such a rule gets match 0
and is never shown.

## Left out

- Persistence: loading and saving the JSON files, existence checks and the default seed. Seed rule 1 is used only as a constant in `Engine.SeedRuleFullQuery` and `Engine.SeedRulePartialQuery`.
- Console interaction:
  - the `run` menu loop, `input`, `print`, `clear()` and `main()`;
  - console input is passed in as parameters;
  - an end of input (EOFError) while typing symptom names is read as the end of the names.
- The interactive paging loops of the current script's `consult`:
  - the symptom pages, the solution pages and their navigation;
  - the mismatch between the numbering of all matches and the selection taken from the current page only.
  - `Engine.ApplyFeedback` takes the chosen rule id as its input instead.
  - The `(len - 1) // page_size + 1` page count of that loop is also left out.
- Rounding with `round(...)` of the displayed and stored fields. The model uses exact reals, which has two effects:
  - the filter at project/engine.py:188 tests the rounded match, which differs only when the F1 is below 5e-5;
  - the sort uses rounded scores, so rounding can create ties the model does not have.
- Floating point in general. Counters and ratios are exact reals, so 0.1 added ten times is exactly 1.
- The history's string keys (`str(rule_id)`): the history is a map from integer rule ids.
- `rule.get("symptoms", [])` for a rule with no "symptoms" key: a `Rule` always has a list, and the empty list has the same effect.
- Duplicate-name detection: there is none in the code, so authoring is permissive.
- The unused `random` import.
- `isdigit` is modelled on ASCII digits only. Python also accepts other Unicode digits, for some of which `int` then raises ValueError.
- `Engine.InferenceEngine.UpdateHistory`, `Engine.HistoricalPrecision`: require non-negative counters. Every update the code makes adds 1 or a non-negative penalty. The model does not cover a history file holding negative counts, for which the code could divide by zero.
- `V11.Confidence`, `V11.InferenceEngine`: require every record to hold both counters. v11 reads them without a default, and a record without one raises KeyError, which the model does not cover. Every record v11 itself writes is complete.
- `V11.Confidence`, `V11.InferenceEngine`: also require non-negative counters, as `Engine.HistoricalPrecision` does. A v11 history file with negative counts is accepted by evidence/versions/v11.py:91-98 and can make `total + 2` zero, a division by zero the model does not cover. Every update v11 makes adds 1, so it never creates such counts.
- `V15.Consult`, `V11.Consult`: a typed number past the end raises IndexError in the code. The model records that as an outcome that changes nothing and does not take a precondition, which also covers the program stopping before it saves.
- `Authoring.AddRule`: `.lower() == "s"` is the boolean `wantsNew`, and the typed name lines are a finite list.
